/** The health worker of internal/health/worker.go and the round-robin choice of
    internal/balancer/balancer.go that rests on it. */
module Health {
  import opened Strings
  import opened Listing

  datatype Target = Target(url: string, healthCheck: string)

  /** Everything that can change the worker, in the order it happens; probes may be late. */
  datatype Event =
    | Synced(targets: seq<Target>)
    | Probed(target: Target, healthy: bool)

  // ----- what the events mean

  function Check(t: Target): string {
    var check := ToLower(TrimSpace(t.healthCheck));
    if check == "" then "http" else check
  }

  function AddTarget(m: map<string, Target>, t: Target): map<string, Target> {
    if t.url == "" then m else m[t.url := Target(t.url, Check(t))]
  }

  /** The targets a sync asks for: the last one given for each address. */
  function Wanted(targets: seq<Target>): map<string, Target> {
    if targets == [] then map[] else AddTarget(Wanted(targets[..|targets| - 1]), targets[|targets| - 1])
  }

  /** An address is asked for if some target gives it. */
  lemma {:induction false} WantedAddresses(ts: seq<Target>, url: string)
    ensures url in Wanted(ts) <==> url != "" && exists i :: 0 <= i < |ts| && ts[i].url == url
  {
    hide Check;
    if ts != [] {
      var init, last := ts[..|ts| - 1], |ts| - 1;
      WantedAddresses(init, url);
      assert forall i :: 0 <= i < last ==> init[i] == ts[i];
      if ts[last].url == url {
        assert 0 <= last < |ts| && ts[last].url == url;
      }
    }
  }

  /** The last target that gives it says how to check it: in lower case, `http` if it does not say. */
  lemma {:induction false} WantedCheck(ts: seq<Target>, i: nat)
    requires i < |ts| && ts[i].url != "" && forall j :: i < j < |ts| ==> ts[j].url != ts[i].url
    ensures ts[i].url in Wanted(ts)
    ensures Wanted(ts)[ts[i].url] ==
            Target(ts[i].url, if TrimSpace(ts[i].healthCheck) == "" then "http" else ToLower(TrimSpace(ts[i].healthCheck)))
  {
    hide TrimSpace, ToLower;
    if i < |ts| - 1 {
      WantedCheck(ts[..|ts| - 1], i);
    } else {
      LowerOfNothing(TrimSpace(ts[i].healthCheck));
    }
  }

  function Monitored(h: seq<Event>): map<string, Target> {
    if h == [] then
      map[]
    else
      match h[|h| - 1]
      case Synced(targets) => Wanted(targets)
      case Probed(_, _) => Monitored(h[..|h| - 1])
  }

  /** The last accepted probe of an address since it was last registered. A probe is accepted when its
      target is the one registered at that moment. */
  function Verdict(h: seq<Event>, url: string): Option<bool> {
    if h == [] then
      None
    else
      var before := h[..|h| - 1];
      match h[|h| - 1]
      case Synced(targets) =>
        if url in Wanted(targets) && url in Monitored(before) then Verdict(before, url) else None
      case Probed(t, healthy) =>
        if t.url == url && url in Monitored(before) && Monitored(before)[url] == t then Some(healthy) else Verdict(before, url)
  }

  /** Healthy: not monitored, not probed yet, or found healthy. */
  predicate CountsAsHealthy(h: seq<Event>, url: string) {
    url !in Monitored(h) || Verdict(h, url) != Some(false)
  }

  lemma LastEvent(h: seq<Event>, e: Event)
    ensures (h + [e])[..|h|] == h && (h + [e])[|h + [e]| - 1] == e
  {
  }

  // ----- the worker

  class Worker {
    var healthy: map<string, bool>
    var checked: map<string, bool>
    var targets: map<string, Target>

    ghost var history: seq<Event>

    ghost predicate Valid()
      reads this
    {
      && healthy.Keys == checked.Keys == targets.Keys
      && targets == Monitored(history)
      && (forall url :: url in targets ==> Recorded(url))
    }

    ghost predicate Recorded(url: string)
      requires url in healthy && url in checked
      reads this
    {
      match Verdict(history, url)
      case None => !checked[url] && healthy[url]
      case Some(v) => checked[url] && healthy[url] == v
    }

    constructor ()
      ensures Valid() && history == []
    {
      healthy, checked, targets, history := map[], map[], map[], [];
    }

    method Sync(wanted: seq<Target>)
      requires Valid()
      modifies this
      ensures Valid() && history == old(history) + [Synced(wanted)]
    {
      hide Monitored, Verdict, Wanted, Check;
      var next := Collect(wanted);
      Forget(next);
      Register(next);
      targets := next;
      history := history + [Synced(wanted)];
      forall url | url in targets
        ensures Recorded(url)
      {
        AfterSync(old(history), wanted, url);
      }
      MonitoredAfterSync(old(history), wanted);
    }

    /** The first loop of Sync: targets that are no longer wanted are forgotten. */
    method Forget(next: map<string, Target>)
      requires healthy.Keys == checked.Keys == targets.Keys
      modifies this`healthy, this`checked
      ensures healthy == old(healthy) - (targets.Keys - next.Keys)
      ensures checked == old(checked) - (targets.Keys - next.Keys)
    {
      var todo := targets.Keys;
      while todo != {}
        invariant todo <= targets.Keys
        invariant healthy == old(healthy) - (targets.Keys - todo - next.Keys)
        invariant checked == old(checked) - (targets.Keys - todo - next.Keys)
        decreases todo
      {
        var url :| url in todo;
        todo := todo - {url};
        if url !in next {
          healthy := healthy - {url};
          checked := checked - {url};
        }
      }
    }

    /** The second loop: targets that were not there before start out healthy and unchecked. */
    method Register(next: map<string, Target>)
      requires healthy.Keys == checked.Keys == targets.Keys * next.Keys
      modifies this`healthy, this`checked
      ensures healthy.Keys == checked.Keys == next.Keys
      ensures forall url :: url in next && url in targets ==> healthy[url] == old(healthy)[url] && checked[url] == old(checked)[url]
      ensures forall url :: url in next && url !in targets ==> healthy[url] && !checked[url]
    {
      var todo := next.Keys;
      while todo != {}
        invariant todo <= next.Keys
        invariant healthy.Keys == checked.Keys == next.Keys - (todo - targets.Keys)
        invariant forall url :: url in healthy && url in targets ==> healthy[url] == old(healthy)[url] && checked[url] == old(checked)[url]
        invariant forall url :: url in healthy && url !in targets ==> healthy[url] && !checked[url]
        decreases todo
      {
        var url :| url in todo;
        todo := todo - {url};
        if url !in targets {
          healthy := healthy[url := true];
          checked := checked[url := false];
        }
      }
    }

    method Collect(wanted: seq<Target>) returns (next: map<string, Target>)
      ensures next == Wanted(wanted)
    {
      next := map[];
      for i := 0 to |wanted|
        invariant next == Wanted(wanted[..i])
      {
        var t := wanted[i];
        assert wanted[..i + 1][..i] == wanted[..i];
        if t.url == "" {
          continue;
        }
        next := next[t.url := Target(t.url, Check(t))];
      }
      assert wanted[..|wanted|] == wanted;
    }

    method RecordProbe(target: Target, isHealthy: bool)
      requires Valid()
      modifies this
      ensures Valid() && history == old(history) + [Probed(target, isHealthy)]
    {
      ProbeMonitored(history, target, isHealthy);
      history := history + [Probed(target, isHealthy)];
      if target.url in targets && targets[target.url] == target {
        healthy := healthy[target.url := isHealthy];
        checked := checked[target.url := true];
      }
      forall url | url in targets
        ensures Recorded(url)
      {
        LastEvent(old(history), Probed(target, isHealthy));
      }
    }

    method IsHealthy(url: string) returns (r: bool)
      requires Valid()
      ensures r == CountsAsHealthy(history, url)
    {
      if url !in targets {
        return true;
      }
      if !checked[url] {
        return true;
      }
      r := healthy[url];
    }

    /** Other callers' steps. */
    method Elapse(events: seq<Event>)
      requires Valid()
      modifies this
      ensures Valid() && history == old(history) + events
    {
      hide Monitored, Verdict;
      for i := 0 to |events|
        invariant Valid() && history == old(history) + events[..i]
      {
        assert events[..i + 1] == events[..i] + [events[i]];
        match events[i]
        case Synced(wanted) => Sync(wanted);
        case Probed(target, isHealthy) => RecordProbe(target, isHealthy);
      }
      assert events[..|events|] == events;
    }

    /** One look for each address, each under a lock of its own; between(i) happens before the i-th. */
    method HealthyTargets(urls: seq<string>, between: nat -> seq<Event>) returns (out: seq<string>)
      requires Valid()
      modifies this
      ensures Valid() && history == HistoryAt(old(history), between, |urls|)
      ensures out == Looked(old(history), urls, between)
    {
      hide Monitored, Verdict, CountsAsHealthy;
      out := [];
      for i := 0 to |urls|
        invariant Valid() && history == HistoryAt(old(history), between, i)
        invariant out == Looked(old(history), urls[..i], between)
      {
        assert urls[..i + 1][..i] == urls[..i];
        Elapse(between(i));
        var ok := IsHealthy(urls[i]);
        if ok {
          out := out + [urls[i]];
        }
      }
      assert urls[..|urls|] == urls;
    }
  }

  /** What has happened by the n-th look. */
  function HistoryAt(h: seq<Event>, between: nat -> seq<Event>, n: nat): seq<Event> {
    if n == 0 then h else HistoryAt(h, between, n - 1) + between(n - 1)
  }

  /** The addresses found healthy, each by what had happened when it was looked at. */
  function Looked(h: seq<Event>, urls: seq<string>, between: nat -> seq<Event>): seq<string> {
    if urls == [] then
      []
    else
      var n := |urls|;
      Looked(h, urls[..n - 1], between)
      + if CountsAsHealthy(HistoryAt(h, between, n), urls[n - 1]) then [urls[n - 1]] else []
  }

  /** If nothing happens meanwhile, they are the addresses that are healthy, in order. */
  lemma {:induction false} QuietLook(h: seq<Event>, urls: seq<string>, between: nat -> seq<Event>)
    requires forall i: nat :: i < |urls| ==> between(i) == []
    ensures HistoryAt(h, between, |urls|) == h && Looked(h, urls, between) == Filter(urls, HealthTest(h))
  {
    hide CountsAsHealthy;
    if urls == [] {
      FilterNone(urls, HealthTest(h));
    } else {
      var n := |urls|;
      QuietLook(h, urls[..n - 1], between);
      FilterLast(urls, n - 1, HealthTest(h));
      assert urls[..n] == urls;
    }
  }

  function HealthTest(h: seq<Event>): string -> bool {
    (url: string) => CountsAsHealthy(h, url)
  }

  lemma AfterSync(h: seq<Event>, wanted: seq<Target>, url: string)
    ensures Verdict(h + [Synced(wanted)], url) ==
            if url in Wanted(wanted) && url in Monitored(h) then Verdict(h, url) else None
  {
    LastEvent(h, Synced(wanted));
  }

  lemma MonitoredAfterSync(h: seq<Event>, wanted: seq<Target>)
    ensures Monitored(h + [Synced(wanted)]) == Wanted(wanted)
  {
    LastEvent(h, Synced(wanted));
  }

  lemma ProbeMonitored(h: seq<Event>, t: Target, healthy: bool)
    ensures Monitored(h + [Probed(t, healthy)]) == Monitored(h)
  {
    LastEvent(h, Probed(t, healthy));
  }

  // ----- round robin

  const COUNTER_RANGE: nat := 0x1_0000_0000_0000_0000

  class Balancer {
    const health: Worker
    var rr: map<string, nat>

    constructor (health: Worker)
      ensures this.health == health && rr == map[]
    {
      this.health := health;
      rr := map[];
    }

    ghost predicate Valid()
      reads this, health
    {
      health.Valid() && forall k :: k in rr ==> rr[k] < COUNTER_RANGE
    }

    /** The counter of a route, which another route's picks leave alone, wraps around at 2^64. */
    method Pick(routeKey: string, targets: seq<string>, between: nat -> seq<Event>) returns (r: Option<string>)
      requires Valid()
      modifies this, health
      ensures Valid() && health.history == HistoryAt(old(health.history), between, |targets|)
      ensures var found, count := Looked(old(health.history), targets, between), Counter(old(rr), routeKey);
              if found == [] then
                r == None && rr == old(rr)
              else
                r == Some(found[count % |found|]) && rr == old(rr)[routeKey := (count + 1) % COUNTER_RANGE]
    {
      var found := health.HealthyTargets(targets, between);
      if found == [] {
        return None;
      }
      var idx := if routeKey in rr then rr[routeKey] else 0;
      rr := rr[routeKey := (idx + 1) % COUNTER_RANGE];
      r := Some(found[idx % |found|]);
    }

    /** Picks of other routes. */
    method PickOthers(routeKey: string, others: seq<OtherPick>)
      requires Valid() && forall i :: 0 <= i < |others| ==> others[i].routeKey != routeKey
      modifies this, health
      ensures Valid() && health.history == old(health.history)
      ensures Counter(rr, routeKey) == Counter(old(rr), routeKey)
    {
      hide Looked, HistoryAt;
      for i := 0 to |others|
        invariant Valid() && health.history == old(health.history)
        invariant Counter(rr, routeKey) == Counter(old(rr), routeKey)
      {
        QuietLook(health.history, others[i].targets, _ => []);
        var _ := Pick(others[i].routeKey, others[i].targets, _ => []);
      }
    }

    /** One pick after whatever others do. */
    method TakeTurn(routeKey: string, targets: seq<string>, turn: Turn) returns (r: Option<string>)
      requires Valid() && Elsewhere(turn, routeKey)
      modifies this, health
      ensures Valid() && health.history == HistoryAt(old(health.history) + turn.before, turn.between, |targets|)
      ensures var found, count := Looked(old(health.history) + turn.before, targets, turn.between), Counter(old(rr), routeKey);
              found != [] ==> r == Some(found[count % |found|]) && Counter(rr, routeKey) == (count + 1) % COUNTER_RANGE
    {
      hide Looked, HistoryAt;
      PickOthers(routeKey, turn.others);
      health.Elapse(turn.before);
      r := Pick(routeKey, targets, turn.between);
    }

    /** Consecutive picks of one route, with other routes' picks and changes of health in between: as long
        as the same targets are found healthy each time, they go through these round robin. */
    method PickInTurn(routeKey: string, targets: seq<string>, turns: seq<Turn>, ghost found: seq<string>)
      returns (picks: seq<Option<string>>)
      requires Valid() && found != []
      requires forall t :: t in turns ==> Elsewhere(t, routeKey)
      modifies this, health
      ensures Valid() && |picks| == |turns|
      ensures health.history == HistoryAfter(old(health.history), turns, |targets|)
      ensures AlwaysFound(old(health.history), targets, turns, found) ==>
                && GoesThrough(picks, Counter(old(rr), routeKey), found)
                && Counter(rr, routeKey) == (Counter(old(rr), routeKey) + |turns|) % COUNTER_RANGE
    {
      hide Looked, HistoryAt, Place, GoesThrough, Elsewhere, Counter;
      picks := [];
      ghost var count := Counter(rr, routeKey);
      CounterInRange(rr, routeKey);
      for n := 0 to |turns|
        invariant Valid() && |picks| == n
        invariant health.history == HistoryAfter(old(health.history), turns[..n], |targets|)
        invariant AlwaysFound(old(health.history), targets, turns[..n], found) ==>
                    PlacesOf(picks, count, found) && Counter(rr, routeKey) == (count + n) % COUNTER_RANGE
      {
        assert turns[..n + 1][..n] == turns[..n];
        assert turns[n] in turns;
        if Counter(rr, routeKey) == (count + n) % COUNTER_RANGE {
          PlaceNext(count, n, Counter(rr, routeKey), found);
        }
        var r := TakeTurn(routeKey, targets, turns[n]);
        picks := picks + [r];
      }
      assert turns[..|turns|] == turns;
      if PlacesOf(picks, count, found) {
        PlacesGoThrough(picks, count, found);
      }
    }

    /** As many such picks as there are distinct healthy targets return each of them exactly once, unless
        the wrap of the counter falls unevenly into them. */
    method PickEachOnce(routeKey: string, targets: seq<string>, turns: seq<Turn>, ghost found: seq<string>)
      returns (picks: seq<Option<string>>)
      requires Valid() && found != [] && |turns| == |found| <= COUNTER_RANGE
      requires forall t :: t in turns ==> Elsewhere(t, routeKey)
      modifies this, health
      ensures Valid() && |picks| == |found|
      ensures AlwaysFound(old(health.history), targets, turns, found) && WrapsEvenly(Counter(old(rr), routeKey), |found|) && Distinct(found) ==>
                && (forall i, j :: 0 <= i < j < |picks| ==> picks[i] != picks[j])
                && (forall t :: t in found ==> Some(t) in picks)
    {
      hide Looked, HistoryAt, Picks, WrapsEvenly;
      ghost var count := Counter(rr, routeKey);
      picks := PickInTurn(routeKey, targets, turns, found);
      if GoesThrough(picks, count, found) && WrapsEvenly(count, |found|) && Distinct(found) {
        EachTargetOnce(count, found);
        forall t | t in found
          ensures Some(t) in picks
        {
          var i :| 0 <= i < |found| && Picks(count, found, |found|)[i] == t;
          assert picks[i] == Some(t);
        }
      }
    }
  }

  ghost predicate Distinct(s: seq<string>) {
    forall i, j :: 0 <= i < j < |s| ==> s[i] != s[j]
  }

  datatype OtherPick = OtherPick(routeKey: string, targets: seq<string>)

  /** What happens before a pick, and during it. */
  datatype Turn = Turn(others: seq<OtherPick>, before: seq<Event>, between: nat -> seq<Event>)

  /** The others pick for other routes. */
  predicate Elsewhere(t: Turn, routeKey: string) {
    forall i :: 0 <= i < |t.others| ==> t.others[i].routeKey != routeKey
  }

  function HistoryAfter(h: seq<Event>, turns: seq<Turn>, looks: nat): seq<Event> {
    if turns == [] then
      h
    else
      var last := turns[|turns| - 1];
      HistoryAt(HistoryAfter(h, turns[..|turns| - 1], looks) + last.before, last.between, looks)
  }

  /** Every pick finds the same targets healthy. */
  ghost predicate AlwaysFound(h: seq<Event>, targets: seq<string>, turns: seq<Turn>, found: seq<string>) {
    turns == [] ||
    var init, last := turns[..|turns| - 1], turns[|turns| - 1];
    && AlwaysFound(h, targets, init, found)
    && Looked(HistoryAfter(h, init, |targets|) + last.before, targets, last.between) == found
  }

  /** The picks are those of round robin over found, beginning at count. */
  ghost predicate GoesThrough(picks: seq<Option<string>>, count: nat, found: seq<string>)
    requires found != []
  {
    forall i :: 0 <= i < |picks| ==> picks[i] == Some(Picks(count, found, |picks|)[i])
  }

  ghost predicate PlacesOf(picks: seq<Option<string>>, count: nat, found: seq<string>)
    requires found != []
  {
    forall i :: 0 <= i < |picks| ==> picks[i] == Some(found[Place(count, i, |found|)])
  }

  lemma PlacesGoThrough(picks: seq<Option<string>>, count: nat, found: seq<string>)
    requires found != [] && count < COUNTER_RANGE && PlacesOf(picks, count, found)
    ensures GoesThrough(picks, count, found)
  {
    hide Place, Picks;
    forall i | 0 <= i < |picks|
      ensures picks[i] == Some(Picks(count, found, |picks|)[i])
    {
      PickPlace(count, found, |picks|, i);
    }
  }

  lemma PlaceNext(count: nat, n: nat, now: nat, found: seq<string>)
    requires found != [] && now == (count + n) % COUNTER_RANGE
    ensures now % |found| == Place(count, n, |found|)
    ensures (now + 1) % COUNTER_RANGE == (count + n + 1) % COUNTER_RANGE
  {
    WrapAgain(count + n, 1);
  }

  function Counter(rr: map<string, nat>, routeKey: string): nat {
    if routeKey in rr then rr[routeKey] else 0
  }

  lemma CounterInRange(rr: map<string, nat>, routeKey: string)
    requires forall k :: k in rr ==> rr[k] < COUNTER_RANGE
    ensures Counter(rr, routeKey) < COUNTER_RANGE
  {
  }

  /** What consecutive picks of one route return while the healthy targets stay the same. */
  function Picks(count: nat, healthy: seq<string>, times: nat): (picks: seq<string>)
    requires healthy != []
    ensures |picks| == times
    decreases times
  {
    if times == 0 then [] else [healthy[count % |healthy|]] + Picks((count + 1) % COUNTER_RANGE, healthy, times - 1)
  }

  /** The place in the list of the i-th of these picks. */
  function Place(count: nat, i: nat, n: nat): nat
    requires n > 0
  {
    ((count + i) % COUNTER_RANGE) % n
  }

  lemma {:induction false} PickPlace(count: nat, healthy: seq<string>, times: nat, i: nat)
    requires healthy != [] && i < times && count < COUNTER_RANGE
    ensures Picks(count, healthy, times)[i] == healthy[Place(count, i, |healthy|)]
    decreases times
  {
    hide Place;
    if i == 0 {
      PlaceOfFirst(count, |healthy|);
    } else {
      PickPlace((count + 1) % COUNTER_RANGE, healthy, times - 1, i - 1);
      PlaceShifts(count, i, |healthy|);
    }
  }

  lemma PlaceOfFirst(count: nat, n: nat)
    requires n > 0 && count < COUNTER_RANGE
    ensures Place(count, 0, n) == count % n
  {
  }

  lemma PlaceShifts(count: nat, i: nat, n: nat)
    requires n > 0 && i > 0
    ensures Place((count + 1) % COUNTER_RANGE, i - 1, n) == Place(count, i, n)
  {
    WrapAgain(count + 1, i - 1);
  }

  lemma WrapAgain(a: nat, b: nat)
    ensures (a % COUNTER_RANGE + b) % COUNTER_RANGE == (a + b) % COUNTER_RANGE
  {
  }

  // ----- remainders

  lemma AtLeast(a: int, n: nat)
    requires a >= 1
    ensures a * n >= n
  {
  }

  /** The remainder of x is the r below n that differs from x by a multiple of n. */
  lemma Remainder(x: int, q: int, r: int, n: nat)
    requires 0 <= r < n && x == r + q * n
    ensures x % n == r
  {
    var p, t := x / n, x % n;
    assert x == p * n + t;
    assert p * n - q * n == (p - q) * n && q * n - p * n == (q - p) * n;
    if p > q {
      AtLeast(p - q, n);
    } else if p < q {
      AtLeast(q - p, n);
    }
  }

  /** Two numbers less than n apart leave the same remainder only if they are the same. */
  lemma CloseRemainders(x: int, y: int, n: nat)
    requires x <= y < x + n && x % n == y % n
    ensures x == y
  {
    var p, q := x / n, y / n;
    assert x == p * n + x % n && y == q * n + y % n;
    assert q * n - p * n == (q - p) * n && p * n - q * n == (p - q) * n;
    if q > p {
      AtLeast(q - p, n);
    } else if q < p {
      AtLeast(p - q, n);
    }
  }

  // ----- when round robin is fair

  /** Each of the n targets is returned by exactly one of n consecutive picks. */
  ghost predicate Fair(count: nat, n: nat)
    requires n > 0
  {
    && (forall k :: 0 <= k < n ==> IsPlaced(count, n, k))
    && (forall i, j :: 0 <= i < j < n ==> Place(count, i, n) != Place(count, j, n))
  }

  ghost predicate IsPlaced(count: nat, n: nat, k: nat)
    requires n > 0
  {
    exists i: nat :: i < n && Place(count, i, n) == k
  }

  /** The counter does not wrap during the n picks, or wrapping does not disturb the order. */
  predicate WrapsEvenly(count: nat, n: nat)
    requires n > 0
  {
    count + n <= COUNTER_RANGE || COUNTER_RANGE % n == 0
  }

  lemma EvenPlace(count: nat, i: nat, n: nat)
    requires 0 < n <= COUNTER_RANGE && count < COUNTER_RANGE && i < n && WrapsEvenly(count, n)
    ensures Place(count, i, n) == (count + i) % n
  {
    if count + i >= COUNTER_RANGE {
      var q, x := COUNTER_RANGE / n, count + i - COUNTER_RANGE;
      assert COUNTER_RANGE == q * n;
      assert (count + i) % COUNTER_RANGE == x;
      var p := x / n;
      assert x == p * n + x % n;
      assert (p + q) * n == p * n + q * n;
      Remainder(count + i, p + q, x % n, n);
    }
  }

  lemma EvenIsFair(count: nat, n: nat)
    requires 0 < n <= COUNTER_RANGE && count < COUNTER_RANGE && WrapsEvenly(count, n)
    ensures Fair(count, n)
  {
    hide Place, IsPlaced, WrapsEvenly;
    forall k: nat | k < n
      ensures IsPlaced(count, n, k)
    {
      EvenReaches(count, n, k);
    }
    forall i, j | 0 <= i < j < n
      ensures Place(count, i, n) != Place(count, j, n)
    {
      EvenApart(count, n, i, j);
    }
  }

  lemma EvenReaches(count: nat, n: nat, k: nat)
    requires k < n <= COUNTER_RANGE && count < COUNTER_RANGE && WrapsEvenly(count, n)
    ensures IsPlaced(count, n, k)
  {
    hide Place, WrapsEvenly;
    var r, q := count % n, count / n;
    var i := if k >= r then k - r else k + n - r;
    assert count == q * n + r;
    assert (q + 1) * n == q * n + n;
    Remainder(count + i, if k >= r then q else q + 1, k, n);
    EvenPlace(count, i, n);
  }

  lemma EvenApart(count: nat, n: nat, i: nat, j: nat)
    requires i < j < n <= COUNTER_RANGE && count < COUNTER_RANGE && WrapsEvenly(count, n)
    ensures Place(count, i, n) != Place(count, j, n)
  {
    hide Place, WrapsEvenly;
    EvenPlace(count, i, n);
    EvenPlace(count, j, n);
    if (count + i) % n == (count + j) % n {
      CloseRemainders(count + i, count + j, n);
    }
  }

  /** If the counter wraps within the n picks and n does not divide its range, two picks coincide. */
  lemma UnevenCollides(count: nat, n: nat) returns (i: nat, j: nat)
    requires 0 < n <= COUNTER_RANGE && count < COUNTER_RANGE && !WrapsEvenly(count, n)
    ensures i < j < n && Place(count, i, n) == Place(count, j, n)
  {
    var m := COUNTER_RANGE - count;
    var r, q := COUNTER_RANGE % n, COUNTER_RANGE / n;
    assert COUNTER_RANGE == q * n + r;
    hide Place;
    if r <= n - m {
      i, j := m - 1, m + r - 1;
      PlaceBeforeWrap(count, i, n, q, r - 1);
      PlaceAfterWrap(count, j, n, r - 1);
    } else {
      i, j := n - 1 - r, n - 1;
      PlaceBeforeWrap(count, i, n, q, n - 1 - m);
      PlaceAfterWrap(count, j, n, n - 1 - m);
    }
  }

  lemma PlaceBeforeWrap(count: nat, i: nat, n: nat, q: nat, r: nat)
    requires r < n && count + i < COUNTER_RANGE && count + i == q * n + r
    ensures Place(count, i, n) == r
  {
    Remainder(count + i, q, r, n);
    assert (count + i) % COUNTER_RANGE == count + i;
  }

  lemma PlaceAfterWrap(count: nat, i: nat, n: nat, r: nat)
    requires r < n <= COUNTER_RANGE && count + i == COUNTER_RANGE + r
    ensures Place(count, i, n) == r
  {
    assert (count + i) % COUNTER_RANGE == r;
    Remainder(r, 0, r, n);
  }

  /** Round robin over n unchanged healthy targets is fair exactly when the wrap of the counter does
      not fall unevenly into the n picks. */
  lemma FairExactlyWhenEven(count: nat, n: nat)
    requires 0 < n <= COUNTER_RANGE && count < COUNTER_RANGE
    ensures Fair(count, n) <==> WrapsEvenly(count, n)
  {
    if WrapsEvenly(count, n) {
      EvenIsFair(count, n);
    } else {
      var i, j := UnevenCollides(count, n);
    }
  }

  /** In terms of the picks themselves: as many consecutive picks as there are distinct healthy targets
      return each of them exactly once. */
  lemma EachTargetOnce(count: nat, healthy: seq<string>)
    requires 0 < |healthy| <= COUNTER_RANGE && count < COUNTER_RANGE && WrapsEvenly(count, |healthy|)
    requires Distinct(healthy)
    ensures var picks := Picks(count, healthy, |healthy|);
            && Distinct(picks)
            && (forall t :: t in healthy ==> t in picks)
  {
    var n := |healthy|;
    var picks := Picks(count, healthy, n);
    EvenIsFair(count, n);
    forall i: nat | i < n
      ensures picks[i] == healthy[Place(count, i, n)]
    {
      PickPlace(count, healthy, n, i);
    }
    forall t | t in healthy
      ensures t in picks
    {
      var k: nat :| k < n && healthy[k] == t;
      assert IsPlaced(count, n, k);
      var i: nat :| i < n && Place(count, i, n) == k;
      assert picks[i] == t;
    }
  }
}
