/** What the rate limiter decides over whole runs. */
module LimiterRuns {
  import opened KeyList
  import opened TokenBucket
  import opened RateLimiter

  function Decisions(cfg: Config, s: State, run: seq<Request>): (d: seq<bool>)
    ensures |d| == |run|
    decreases |run|
  {
    if run == [] then [] else [Allows(cfg, s, run[0])] + Decisions(cfg, Next(cfg, s, run[0]), run[1..])
  }

  function After(cfg: Config, s: State, run: seq<Request>): State
    decreases |run|
  {
    if run == [] then s else After(cfg, Next(cfg, s, run[0]), run[1..])
  }

  lemma {:induction false} RunsCompose(cfg: Config, s: State, a: seq<Request>, b: seq<Request>)
    ensures Decisions(cfg, s, a + b) == Decisions(cfg, s, a) + Decisions(cfg, After(cfg, s, a), b)
    decreases |a|
  {
    hide Next, Allows;
    if a == [] {
      assert a + b == b;
    } else {
      RunsCompose(cfg, Next(cfg, s, a[0]), a[1..], b);
      assert (a + b)[1..] == a[1..] + b;
    }
  }

  lemma {:induction false} AfterConsistent(cfg: Config, s: State, run: seq<Request>)
    requires Usable(cfg) && Consistent(cfg, s)
    ensures Consistent(cfg, After(cfg, s, run))
    decreases |run|
  {
    hide Next, Consistent;
    if run != [] {
      NextConsistent(cfg, s, run[0]);
      AfterConsistent(cfg, Next(cfg, s, run[0]), run[1..]);
    }
  }

  // ----- the window bound

  /** The state a request finds its bucket in: after pruning, and after eviction if it needs a new one. */
  function Cleared(cfg: Config, s: State, r: Request): State {
    var pruned := Prune(cfg, s, r.now);
    if KeyOf(r.key) in pruned.buckets then pruned else MakeRoom(cfg, pruned, r.now)
  }

  /** The bucket of k is neither pruned nor evicted during the run. */
  ghost predicate Lives(cfg: Config, s: State, run: seq<Request>, k: string)
    decreases |run|
  {
    && k in s.buckets
    && (run != [] ==> k in Cleared(cfg, s, run[0]).buckets && Lives(cfg, Next(cfg, s, run[0]), run[1..], k))
  }

  function AttemptsOf(run: seq<Request>, k: string): seq<Attempt>
    decreases |run|
  {
    if run == [] then []
    else if KeyOf(run[0].key) == k then [Attempt(1.0, run[0].now)] + AttemptsOf(run[1..], k)
    else AttemptsOf(run[1..], k)
  }

  /** How many requests of k the limiter admits. */
  function Admitted(cfg: Config, s: State, run: seq<Request>, k: string): nat
    decreases |run|
  {
    if run == [] then
      0
    else
      (if KeyOf(run[0].key) == k && Allows(cfg, s, run[0]) then 1 else 0) + Admitted(cfg, Next(cfg, s, run[0]), run[1..], k)
  }

  lemma ClearedKeepsBuckets(cfg: Config, s: State, r: Request, k: string)
    requires k in Cleared(cfg, s, r).buckets
    ensures k in s.buckets && Cleared(cfg, s, r).buckets[k] == s.buckets[k]
    ensures k in Prune(cfg, s, r.now).buckets && Prune(cfg, s, r.now).buckets[k] == s.buckets[k]
  {
  }

  /** During its life a bucket sees the attempts on its key and nothing else. */
  lemma {:induction false} LifeIsBucketRun(cfg: Config, s: State, run: seq<Request>, k: string)
    requires Lives(cfg, s, run, k)
    ensures k in After(cfg, s, run).buckets
    ensures After(cfg, s, run).buckets[k] == Run(cfg.rate, cfg.burst, s.buckets[k], AttemptsOf(run, k))
    ensures Admitted(cfg, s, run, k) as real == Granted(cfg.rate, cfg.burst, s.buckets[k], AttemptsOf(run, k))
    decreases |run|
  {
    hide Prune, MakeRoom, Spend, Grants;
    if run != [] {
      var r := run[0];
      ClearedKeepsBuckets(cfg, s, r, k);
      LifeIsBucketRun(cfg, Next(cfg, s, r), run[1..], k);
      if KeyOf(r.key) == k {
        assert AttemptsOf(run, k)[1..] == AttemptsOf(run[1..], k);
      }
    }
  }

  lemma {:induction false} AttemptsAreOne(run: seq<Request>, k: string)
    ensures forall i :: 0 <= i < |AttemptsOf(run, k)| ==> AttemptsOf(run, k)[i].amount == 1.0
    decreases |run|
  {
    if run != [] {
      AttemptsAreOne(run[1..], k);
    }
  }

  /** Between any two points of a bucket's life, the requests admitted are at most the burst and the
      rate over the time in between, even when clock readings go backwards. */
  lemma LifetimeBound(cfg: Config, s: State, run: seq<Request>, k: string)
    requires Usable(cfg) && Consistent(cfg, s) && Lives(cfg, s, run, k)
    ensures k in After(cfg, s, run).buckets
    ensures var first, last := s.buckets[k], After(cfg, s, run).buckets[k];
            && first.last <= last.last && last.tokens >= 0.0
            && Admitted(cfg, s, run, k) as real + last.tokens <= first.tokens + Gain(cfg.rate, first.last, last.last)
            && Admitted(cfg, s, run, k) as real <= cfg.burst + Gain(cfg.rate, first.last, last.last)
  {
    LifeIsBucketRun(cfg, s, run, k);
    AttemptsAreOne(run, k);
    WindowBound(cfg.rate, cfg.burst, s.buckets[k], AttemptsOf(run, k));
  }

  /** The request that creates the bucket counts too. */
  lemma LifetimeBoundFromCreation(cfg: Config, s: State, r: Request, run: seq<Request>)
    requires Usable(cfg) && Consistent(cfg, s)
    requires KeyOf(r.key) !in Prune(cfg, s, r.now).buckets
    requires Lives(cfg, Next(cfg, s, r), run, KeyOf(r.key))
    ensures Allows(cfg, s, r)
    ensures var k := KeyOf(r.key);
            k in After(cfg, Next(cfg, s, r), run).buckets &&
            1.0 + Admitted(cfg, Next(cfg, s, r), run, k) as real <=
            cfg.burst + Gain(cfg.rate, r.now, After(cfg, Next(cfg, s, r), run).buckets[k].last)
  {
    hide Prune, MakeRoom, Consistent;
    NextConsistent(cfg, s, r);
    LifetimeBound(cfg, Next(cfg, s, r), run, KeyOf(r.key));
  }

  // ----- who is evicted

  /** When the key was asked for last, as a position in the run; -1 if it never was. */
  function LastAsk(run: seq<Request>, k: string): int {
    if run == [] then -1
    else if KeyOf(run[|run| - 1].key) == k then |run| - 1
    else LastAsk(run[..|run| - 1], k)
  }

  /** The keys stand in the order in which they were asked for last, latest first. */
  ghost predicate ByLastAsk(run: seq<Request>, keys: seq<string>)
    decreases |keys|
  {
    keys == [] ||
    (LastAsk(run, keys[0]) >= 0 && (forall k :: k in keys[1..] ==> LastAsk(run, k) < LastAsk(run, keys[0])) && ByLastAsk(run, keys[1..]))
  }

  lemma LastAskNext(run: seq<Request>, r: Request, k: string)
    ensures LastAsk(run + [r], k) == if KeyOf(r.key) == k then |run| else LastAsk(run, k)
    ensures LastAsk(run, k) < |run|
  {
    assert (run + [r])[..|run|] == run;
    LastAskBound(run, k);
  }

  lemma {:induction false} LastAskBound(run: seq<Request>, k: string)
    ensures -1 <= LastAsk(run, k) < |run|
  {
    if run != [] {
      LastAskBound(run[..|run| - 1], k);
    }
  }

  lemma {:induction false} DropMembers(keys: seq<string>, gone: set<string>)
    ensures forall k :: k in Drop(keys, gone) <==> k in keys && k !in gone
  {
    if keys != [] {
      DropMembers(keys[1..], gone);
      assert forall k :: k in keys <==> k == keys[0] || k in keys[1..];
    }
  }

  lemma {:induction false} DropByLastAsk(run: seq<Request>, keys: seq<string>, gone: set<string>)
    requires ByLastAsk(run, keys)
    ensures ByLastAsk(run, Drop(keys, gone))
    decreases |keys|
  {
    if keys != [] {
      DropByLastAsk(run, keys[1..], gone);
      DropMembers(keys[1..], gone);
      if keys[0] !in gone {
        assert Drop(keys, gone)[1..] == Drop(keys[1..], gone);
      }
    }
  }

  lemma {:induction false} LaterByLastAsk(run: seq<Request>, r: Request, keys: seq<string>)
    requires ByLastAsk(run, keys) && KeyOf(r.key) !in keys
    ensures ByLastAsk(run + [r], keys)
    decreases |keys|
  {
    hide LastAsk;
    if keys != [] {
      LaterByLastAsk(run, r, keys[1..]);
      forall k | k in keys
        ensures LastAsk(run + [r], k) == LastAsk(run, k)
      {
        LastAskNext(run, r, k);
      }
    }
  }

  lemma AskedByLastAsk(run: seq<Request>, r: Request, keys: seq<string>)
    requires ByLastAsk(run, keys) && KeyOf(r.key) !in keys
    ensures ByLastAsk(run + [r], [KeyOf(r.key)] + keys)
  {
    hide LastAsk;
    LaterByLastAsk(run, r, keys);
    LastAskNext(run, r, KeyOf(r.key));
    var all := [KeyOf(r.key)] + keys;
    assert all[1..] == keys;
    forall k | k in keys
      ensures LastAsk(run + [r], k) < LastAsk(run + [r], KeyOf(r.key))
    {
      LastAskNext(run, r, k);
    }
  }

  lemma {:induction false} AfterCompose(cfg: Config, s: State, a: seq<Request>, b: seq<Request>)
    ensures After(cfg, s, a + b) == After(cfg, After(cfg, s, a), b)
    decreases |a|
  {
    hide Next;
    if a == [] {
      assert a + b == b;
    } else {
      assert (a + b)[0] == a[0] && (a + b)[1..] == a[1..] + b;
      AfterCompose(cfg, Next(cfg, s, a[0]), a[1..], b);
    }
  }

  lemma AfterOne(cfg: Config, s: State, run: seq<Request>, r: Request)
    ensures After(cfg, s, run + [r]) == Next(cfg, After(cfg, s, run), r)
  {
    hide Next;
    AfterCompose(cfg, s, run, [r]);
    assert [r][1..] == [];
  }

  /** The list of the limiter is in that order after every run. */
  lemma {:induction false} RecencyIsByLastAsk(cfg: Config, zero: Time, run: seq<Request>)
    requires Usable(cfg)
    ensures ByLastAsk(run, After(cfg, Fresh(zero), run).recency) && Consistent(cfg, After(cfg, Fresh(zero), run))
  {
    hide Next, Consistent, ByLastAsk;
    FreshConsistent(cfg, zero);
    AfterConsistent(cfg, Fresh(zero), run);
    if run == [] {
      NothingAsked();
    } else {
      var init, r := run[..|run| - 1], run[|run| - 1];
      RecencyIsByLastAsk(cfg, zero, init);
      AfterOne(cfg, Fresh(zero), init, r);
      assert run == init + [r];
      NextByLastAsk(cfg, After(cfg, Fresh(zero), init), init, r);
    }
  }

  lemma NothingAsked()
    ensures ByLastAsk([], [])
  {
  }

  lemma FreshConsistent(cfg: Config, zero: Time)
    ensures Consistent(cfg, Fresh(zero))
  {
  }

  lemma NextByLastAsk(cfg: Config, s: State, run: seq<Request>, r: Request)
    requires Usable(cfg) && Consistent(cfg, s) && ByLastAsk(run, s.recency)
    ensures ByLastAsk(run + [r], Next(cfg, s, r).recency)
  {
    hide ByLastAsk, Drop, Consistent, Spend, Idle;
    var key, pruned := KeyOf(r.key), Prune(cfg, s, r.now);
    PrunedConsistent(cfg, s, r.now);
    DropByLastAsk(run, s.recency, Idle(cfg, s.buckets, r.now));
    if key in pruned.buckets {
      DropByLastAsk(run, pruned.recency, {key});
      DropMembers(pruned.recency, {key});
      AskedByLastAsk(run, r, Drop(pruned.recency, {key}));
    } else {
      var room := MakeRoom(cfg, pruned, r.now);
      MakeRoomConsistent(cfg, pruned, r.now);
      if pruned.recency != [] {
        DropByLastAsk(run, pruned.recency, {pruned.recency[|pruned.recency| - 1]});
      }
      RecencyMembers(cfg, room);
      AskedByLastAsk(run, r, room.recency);
    }
  }

  lemma RecencyMembers(cfg: Config, s: State)
    requires Consistent(cfg, s)
    ensures forall k :: k in s.recency <==> k in s.buckets
  {
    ListsMembers(s.recency, s.buckets.Keys);
  }

  lemma {:induction false} LastByLastAsk(run: seq<Request>, keys: seq<string>, k: string)
    requires ByLastAsk(run, keys) && k in keys && k != keys[|keys| - 1]
    ensures LastAsk(run, keys[|keys| - 1]) < LastAsk(run, k)
    decreases |keys|
  {
    var last := keys[|keys| - 1];
    if k == keys[0] {
      assert last in keys[1..] by { assert last == keys[1..][|keys| - 2]; }
    } else {
      assert keys[1..][|keys[1..]| - 1] == last;
      LastByLastAsk(run, keys[1..], k);
    }
  }

  /** Whoever loses its bucket to a new one was asked for less recently than anybody who keeps theirs. */
  lemma EvictedIsLeastRecent(cfg: Config, zero: Time, run: seq<Request>, r: Request, victim: string, k: string)
    requires Usable(cfg)
    requires var s := After(cfg, Fresh(zero), run);
             && victim in Prune(cfg, s, r.now).buckets && victim !in Next(cfg, s, r).buckets
             && k in Next(cfg, s, r).buckets && k != KeyOf(r.key)
    ensures LastAsk(run, victim) < LastAsk(run, k)
  {
    hide ByLastAsk, Consistent, LastAsk, After, Next, Prune;
    var s := After(cfg, Fresh(zero), run);
    RecencyIsByLastAsk(cfg, zero, run);
    var pruned := Prune(cfg, s, r.now);
    PruneByLastAsk(cfg, s, run, r.now);
    PrunedConsistent(cfg, s, r.now);
    VictimIsLast(cfg, s, r, victim, k);
    LastByLastAsk(run, pruned.recency, k);
  }

  lemma PruneByLastAsk(cfg: Config, s: State, run: seq<Request>, now: Time)
    requires ByLastAsk(run, s.recency)
    ensures ByLastAsk(run, Prune(cfg, s, now).recency)
  {
    hide ByLastAsk, Drop, Idle;
    DropByLastAsk(run, s.recency, Idle(cfg, s.buckets, now));
  }

  lemma VictimIsLast(cfg: Config, s: State, r: Request, victim: string, k: string)
    requires var pruned := Prune(cfg, s, r.now);
             && Consistent(cfg, pruned)
             && victim in pruned.buckets && victim !in Next(cfg, s, r).buckets
             && k in Next(cfg, s, r).buckets && k != KeyOf(r.key)
    ensures var list := Prune(cfg, s, r.now).recency;
            k in list && victim == list[|list| - 1] && k != victim
  {
    hide Prune, Drop, Spend, Consistent;
    RecencyMembers(cfg, Prune(cfg, s, r.now));
  }

  // ----- pruning cannot be observed

  /** The same limiter, that never prunes and never evicts. */
  function Unpruned(cfg: Config): Config {
    cfg.(maxBuckets := 0, ttl := 0)
  }

  ghost predicate Nondecreasing(clock: Time, run: seq<Request>)
    decreases |run|
  {
    run == [] || (clock <= run[0].now && Nondecreasing(run[0].now, run[1..]))
  }

  /** No request of the run finds the limiter full. */
  ghost predicate NeverEvicts(cfg: Config, s: State, run: seq<Request>)
    decreases |run|
  {
    run == [] || (
      var pruned := Prune(cfg, s, run[0].now);
      && (KeyOf(run[0].key) in pruned.buckets || MakeRoom(cfg, pruned, run[0].now) == pruned)
      && NeverEvicts(cfg, Next(cfg, s, run[0]), run[1..]))
  }

  /** The pruning limiter p and the unpruned one u differ only in buckets that have been idle for more
      than the ttl. */
  ghost predicate Simulates(cfg: Config, p: State, u: State, clock: Time) {
    && (forall k :: k in p.buckets ==> k in u.buckets && p.buckets[k] == u.buckets[k])
    && (forall k :: k in u.buckets ==>
          && Sound(cfg.burst, u.buckets[k])
          && u.buckets[k].last <= clock
          && (k !in p.buckets ==> clock - u.buckets[k].last > cfg.ttl))
  }

  /** An idle bucket has earned the whole burst by the time it may be pruned. */
  ghost predicate RefillsBeforePruning(cfg: Config) {
    Gain(cfg.rate, 0, cfg.ttl + 1) >= cfg.burst
  }

  lemma PruneSimulates(cfg: Config, p: State, u: State, clock: Time, now: Time)
    requires Simulates(cfg, p, u, clock) && clock <= now
    ensures Simulates(cfg, Prune(cfg, p, now), u, now)
  {
  }

  /** A fully refilled bucket does what a new one does. */
  lemma IdleIsNew(cfg: Config, b: Bucket, now: Time)
    requires Usable(cfg) && cfg.ttl > 0 && RefillsBeforePruning(cfg) && Sound(cfg.burst, b) && now - b.last > cfg.ttl
    ensures Grants(cfg.rate, cfg.burst, b, 1.0, now)
    ensures Spend(cfg.rate, cfg.burst, b, 1.0, now) == Bucket(cfg.burst - 1.0, now)
  {
    var earned := Gain(cfg.rate, b.last, now);
    assert earned == Gain(cfg.rate, 0, now - b.last);
    GainGrows(cfg.rate, 0, cfg.ttl + 1, now - b.last);
  }

  lemma StepSimulates(cfg: Config, p: State, u: State, clock: Time, r: Request)
    requires Usable(cfg) && cfg.ttl > 0 && RefillsBeforePruning(cfg)
    requires Simulates(cfg, p, u, clock) && clock <= r.now
    requires NeverEvicts(cfg, p, [r])
    ensures Allows(cfg, p, r) == Allows(Unpruned(cfg), u, r)
    ensures Simulates(cfg, Next(cfg, p, r), Next(Unpruned(cfg), u, r), r.now)
  {
    hide Prune, Spend, Grants, RefillsBeforePruning, Drop, MakeRoom, Simulates, Touch, Enter;
    var key, pruned := KeyOf(r.key), Prune(cfg, p, r.now);
    PruneSimulates(cfg, p, u, clock, r.now);
    UnprunedPrune(cfg, u, r.now);
    SimulatesAt(cfg, pruned, u, r.now, key);
    if key in pruned.buckets {
      TouchSimulates(cfg, pruned, u, r.now, key);
    } else {
      NoEvictionHere(cfg, p, r);
      EnterSimulates(cfg, pruned, u, r.now, key);
    }
  }

  lemma SimulatesAt(cfg: Config, p: State, u: State, clock: Time, key: string)
    requires Simulates(cfg, p, u, clock)
    ensures key in p.buckets ==> key in u.buckets && p.buckets[key] == u.buckets[key]
    ensures key in u.buckets ==> Sound(cfg.burst, u.buckets[key])
    ensures key in u.buckets && key !in p.buckets ==> clock - u.buckets[key].last > cfg.ttl
  {
  }

  lemma NoEvictionHere(cfg: Config, p: State, r: Request)
    requires NeverEvicts(cfg, p, [r]) && KeyOf(r.key) !in Prune(cfg, p, r.now).buckets
    ensures MakeRoom(cfg, Prune(cfg, p, r.now), r.now) == Prune(cfg, p, r.now)
  {
  }

  lemma TouchSimulates(cfg: Config, p: State, u: State, now: Time, key: string)
    requires Usable(cfg) && Simulates(cfg, p, u, now) && key in p.buckets && key in u.buckets
    ensures Simulates(cfg, Touch(cfg, p, key, now), Touch(Unpruned(cfg), u, key, now), now)
  {
    hide Spend, Grants, Drop;
    SpendConserves(cfg.rate, cfg.burst, u.buckets[key], 1.0, now);
  }

  /** Where the bucket is missing, a new one is what the refilled one becomes. */
  lemma EnterSimulates(cfg: Config, p: State, u: State, now: Time, key: string)
    requires Usable(cfg) && cfg.ttl > 0 && RefillsBeforePruning(cfg)
    requires Simulates(cfg, p, u, now) && key !in p.buckets
    ensures key in u.buckets ==> Grants(cfg.rate, cfg.burst, u.buckets[key], 1.0, now)
    ensures Simulates(cfg, Enter(cfg, p, key, now), if key in u.buckets then Touch(Unpruned(cfg), u, key, now) else Enter(Unpruned(cfg), u, key, now), now)
  {
    hide Spend, Grants, Drop, RefillsBeforePruning;
    if key in u.buckets {
      IdleIsNew(cfg, u.buckets[key], now);
    }
  }

  lemma UnprunedPrune(cfg: Config, u: State, now: Time)
    ensures Prune(Unpruned(cfg), u, now) == u && MakeRoom(Unpruned(cfg), u, now) == u
  {
  }

  lemma {:induction false} RunsSimulate(cfg: Config, p: State, u: State, clock: Time, run: seq<Request>)
    requires Usable(cfg) && cfg.ttl > 0 && RefillsBeforePruning(cfg)
    requires Simulates(cfg, p, u, clock) && Nondecreasing(clock, run) && NeverEvicts(cfg, p, run)
    ensures Decisions(cfg, p, run) == Decisions(Unpruned(cfg), u, run)
    decreases |run|
  {
    hide Next, Allows, Simulates, Prune, MakeRoom, RefillsBeforePruning;
    if run != [] {
      var r := run[0];
      assert [r][1..] == [];
      StepSimulates(cfg, p, u, clock, r);
      RunsSimulate(cfg, Next(cfg, p, r), Next(Unpruned(cfg), u, r), r.now, run[1..]);
    }
  }

  /** From any state whose buckets lie in the past, pruning changes no decision of any run. */
  lemma PruningIsUnobservable(cfg: Config, s: State, clock: Time, run: seq<Request>)
    requires Usable(cfg) && Consistent(cfg, s) && cfg.ttl > 0 && RefillsBeforePruning(cfg)
    requires forall k :: k in s.buckets ==> s.buckets[k].last <= clock
    requires Nondecreasing(clock, run) && NeverEvicts(cfg, s, run)
    ensures Decisions(cfg, s, run) == Decisions(Unpruned(cfg), s, run)
  {
    RunsSimulate(cfg, s, s, clock, run);
  }

  // ----- and exactly when

  function Repeat(r: Request, n: nat): (run: seq<Request>)
    ensures |run| == n
  {
    if n == 0 then [] else [r] + Repeat(r, n - 1)
  }

  /** A limiter with one bucket, full enough for n requests at the time it was last used. */
  ghost predicate OneBucket(s: State, k: string, tokens: real, t: Time) {
    s.buckets == map[k := Bucket(tokens, t)] && s.recency == [k]
  }

  lemma TouchOne(cfg: Config, s: State, k: string, tokens: real, t: Time)
    requires OneBucket(s, k, tokens, t) && tokens >= 1.0 && k != ""
    ensures Allows(cfg, s, Request(k, t))
    ensures OneBucket(Next(cfg, s, Request(k, t)), k, tokens - 1.0, t)
    ensures t - s.lastPrune < MINUTE ==> Next(cfg, s, Request(k, t)).lastPrune == s.lastPrune
    ensures NeverEvicts(cfg, s, [Request(k, t)])
  {
    var r := Request(k, t);
    assert cfg.ttl > 0 ==> Idle(cfg, s.buckets, t) == {};
    DropNothing(s.recency);
    assert s.buckets - {} == s.buckets;
    var pruned := Prune(cfg, s, t);
    assert pruned.buckets == s.buckets && pruned.recency == s.recency;
    assert Drop([k], {k}) == [];
    assert [r][1..] == [];
  }

  lemma {:induction false} BurstAtOnce(cfg: Config, s: State, k: string, tokens: real, t: Time, n: nat)
    requires OneBucket(s, k, tokens, t) && tokens >= n as real && k != ""
    ensures forall i :: 0 <= i < n ==> Decisions(cfg, s, Repeat(Request(k, t), n))[i]
    ensures OneBucket(After(cfg, s, Repeat(Request(k, t), n)), k, tokens - n as real, t)
    ensures t - s.lastPrune < MINUTE ==> After(cfg, s, Repeat(Request(k, t), n)).lastPrune == s.lastPrune
    ensures NeverEvicts(cfg, s, Repeat(Request(k, t), n))
    ensures Nondecreasing(t, Repeat(Request(k, t), n))
    decreases n
  {
    hide Next, Allows, Prune, MakeRoom, OneBucket;
    if n > 0 {
      var r := Request(k, t);
      var run := Repeat(r, n);
      assert run[0] == r && run[1..] == Repeat(r, n - 1) && [r][1..] == [];
      TouchOne(cfg, s, k, tokens, t);
      BurstAtOnce(cfg, Next(cfg, s, r), k, tokens - 1.0, t, n - 1);
    }
  }

  function Fresh(zero: Time): State {
    State(map[], [], zero)
  }

  /** The first of n requests enters its bucket, the others use it up. */
  lemma FreshBurst(cfg: Config, s: State, k: string, t: Time, n: nat)
    requires Usable(cfg) && cfg.burst == n as real && k != "" && n >= 1
    requires var cleared := Prune(cfg, s, t); cleared.buckets == map[] && cleared.recency == []
    ensures var run := Repeat(Request(k, t), n);
            && (forall i :: 0 <= i < n ==> Decisions(cfg, s, run)[i])
            && OneBucket(After(cfg, s, run), k, 0.0, t)
            && NeverEvicts(cfg, s, run) && Nondecreasing(t, run)
            && (cfg.ttl > 0 ==> After(cfg, s, run).lastPrune == Prune(cfg, s, t).lastPrune)
  {
    var r := Request(k, t);
    var run := Repeat(r, n);
    assert run[0] == r && run[1..] == Repeat(r, n - 1);
    var pruned := Prune(cfg, s, t);
    assert MakeRoom(cfg, pruned, t) == pruned;
    BurstAtOnce(cfg, Next(cfg, s, r), k, cfg.burst - 1.0, t, n - 1);
  }

  lemma {:induction false} UnprunedLives(cfg: Config, s: State, run: seq<Request>, k: string)
    requires k in s.buckets
    ensures Lives(Unpruned(cfg), s, run, k)
    decreases |run|
  {
    hide Spend, Drop;
    if run != [] {
      UnprunedPrune(cfg, s, run[0].now);
      UnprunedLives(cfg, Next(Unpruned(cfg), s, run[0]), run[1..], k);
    }
  }

  lemma {:induction false} AllAdmitted(cfg: Config, s: State, k: string, t: Time, n: nat)
    requires k != "" && forall i :: 0 <= i < n ==> Decisions(cfg, s, Repeat(Request(k, t), n))[i]
    ensures Admitted(cfg, s, Repeat(Request(k, t), n), k) == n
    decreases n
  {
    hide Next, Allows;
    if n > 0 {
      var r := Request(k, t);
      var run := Repeat(r, n);
      assert run[0] == r && run[1..] == Repeat(r, n - 1);
      var d, rest := Decisions(cfg, s, run), Decisions(cfg, Next(cfg, s, r), run[1..]);
      assert d[0] && forall i :: 0 <= i < n - 1 ==> rest[i] == d[i + 1];
      AllAdmitted(cfg, Next(cfg, s, r), k, t, n - 1);
    }
  }

  lemma {:induction false} AttemptsAt(k: string, t: Time, n: nat)
    ensures forall i :: 0 <= i < |AttemptsOf(Repeat(Request(k, t), n), k)| ==> AttemptsOf(Repeat(Request(k, t), n), k)[i].now == t
  {
    if n > 0 {
      var run := Repeat(Request(k, t), n);
      assert run[0] == Request(k, t) && run[1..] == Repeat(Request(k, t), n - 1);
      AttemptsAt(k, t, n - 1);
    }
  }

  /** An empty bucket that has earned less than n by then does not admit n requests. */
  lemma TooEarly(cfg: Config, s: State, k: string, t: Time, later: Time, n: nat)
    requires Usable(cfg) && OneBucket(s, k, 0.0, t) && k != "" && t <= later && Gain(cfg.rate, t, later) < n as real
    ensures exists i :: 0 <= i < n && !Decisions(Unpruned(cfg), s, Repeat(Request(k, later), n))[i]
  {
    var run := Repeat(Request(k, later), n);
    if forall i :: 0 <= i < n ==> Decisions(Unpruned(cfg), s, run)[i] {
      AllAdmitted(Unpruned(cfg), s, k, later, n);
      UnprunedLives(cfg, s, run, k);
      LifeIsBucketRun(Unpruned(cfg), s, run, k);
      AttemptsAreOne(run, k);
      AttemptsAt(k, later, n);
      WindowBound(cfg.rate, cfg.burst, s.buckets[k], AttemptsOf(run, k));
      RunLast(cfg.rate, cfg.burst, s.buckets[k], AttemptsOf(run, k), later);
      GainGrows(cfg.rate, t, After(Unpruned(cfg), s, run).buckets[k].last, later);
      assert false;
    }
  }

  /** When an idle bucket can be pruned before it has refilled, a client that spends its burst, waits
      until the bucket is pruned and spends another burst sees the difference. */
  lemma PruningIsObservable(cfg: Config, zero: Time, clock: Time) returns (run: seq<Request>)
    requires Usable(cfg) && cfg.ttl > 0 && !RefillsBeforePruning(cfg) && cfg.burst == cfg.burst.Floor as real
    requires if clock - zero < MINUTE then clock + cfg.ttl + 1 - zero >= MINUTE else cfg.ttl + 1 >= MINUTE
    ensures Nondecreasing(clock, run) && NeverEvicts(cfg, Fresh(zero), run)
    ensures Decisions(cfg, Fresh(zero), run) != Decisions(Unpruned(cfg), Fresh(zero), run)
  {
    hide Prune, MakeRoom, Next, Allows, Decisions, After, NeverEvicts, Nondecreasing, Gain;
    var n: nat := cfg.burst.Floor;
    var idle := cfg.ttl + 1;
    var t, later, k, s := clock, clock + idle, "k", Fresh(zero);
    var one, two := Repeat(Request(k, t), n), Repeat(Request(k, later), n);
    FreshPrune(cfg, zero, t);
    FreshPrune(Unpruned(cfg), zero, t);
    FreshBurst(cfg, s, k, t, n);
    FreshBurst(Unpruned(cfg), s, k, t, n);
    var p, u := After(cfg, s, one), After(Unpruned(cfg), s, one);
    IdlePrune(cfg, p, k, t, later);
    FreshBurst(cfg, p, k, later, n);
    assert Gain(cfg.rate, t, later) == Gain(cfg.rate, 0, idle) by { SameGain(cfg.rate, t, idle); }
    TooEarly(cfg, u, k, t, later, n);
    RunsCompose(cfg, s, one, two);
    RunsCompose(Unpruned(cfg), s, one, two);
    var i :| 0 <= i < n && !Decisions(Unpruned(cfg), u, two)[i];
    assert Decisions(cfg, s, one + two)[n + i] && !Decisions(Unpruned(cfg), s, one + two)[n + i];
    NeverEvictsCompose(cfg, s, one, two);
    NondecreasingCompose(t, later, k, n);
    run := one + two;
  }

  lemma SameGain(rate: real, t: Time, d: Time)
    ensures Gain(rate, t, t + d) == Gain(rate, 0, d)
  {
  }

  lemma FreshPrune(cfg: Config, zero: Time, t: Time)
    ensures Prune(cfg, Fresh(zero), t) == Fresh(if cfg.ttl <= 0 || t - zero < MINUTE then zero else t)
  {
    var s := Fresh(zero);
    assert s.buckets - Idle(cfg, s.buckets, t) == map[];
  }

  lemma IdlePrune(cfg: Config, s: State, k: string, t: Time, later: Time)
    requires OneBucket(s, k, 0.0, t) && cfg.ttl > 0 && later - t > cfg.ttl && later - s.lastPrune >= MINUTE
    ensures var cleared := Prune(cfg, s, later); cleared.buckets == map[] && cleared.recency == []
  {
    assert Idle(cfg, s.buckets, later) == {k};
    assert Drop([k], {k}) == [];
  }

  lemma {:induction false} NeverEvictsCompose(cfg: Config, s: State, a: seq<Request>, b: seq<Request>)
    requires NeverEvicts(cfg, s, a) && NeverEvicts(cfg, After(cfg, s, a), b)
    ensures NeverEvicts(cfg, s, a + b)
    decreases |a|
  {
    hide Next, Prune, MakeRoom;
    if a == [] {
      assert a + b == b;
    } else {
      assert (a + b)[1..] == a[1..] + b && (a + b)[0] == a[0];
      NeverEvictsCompose(cfg, Next(cfg, s, a[0]), a[1..], b);
    }
  }

  lemma {:induction false} NondecreasingCompose(t: Time, later: Time, k: string, n: nat)
    requires t <= later && Nondecreasing(later, Repeat(Request(k, later), n))
    ensures Nondecreasing(t, Repeat(Request(k, t), n) + Repeat(Request(k, later), n))
  {
    OneAfterOther(t, later, k, n, n);
  }

  lemma {:induction false} OneAfterOther(t: Time, later: Time, k: string, m: nat, n: nat)
    requires t <= later && Nondecreasing(later, Repeat(Request(k, later), n))
    ensures Nondecreasing(t, Repeat(Request(k, t), m) + Repeat(Request(k, later), n))
    decreases m
  {
    var one, two := Repeat(Request(k, t), m), Repeat(Request(k, later), n);
    if m == 0 {
      assert one + two == two;
    } else {
      assert (one + two)[0] == Request(k, t) && (one + two)[1..] == Repeat(Request(k, t), m - 1) + two;
      OneAfterOther(t, later, k, m - 1, n);
    }
  }

  /** Pruning changes no decision of any run of a new limiter in which nothing is evicted. */
  ghost predicate NeverObserved(cfg: Config) {
    forall zero, clock, run ::
      Nondecreasing(clock, run) && NeverEvicts(cfg, Fresh(zero), run) ==>
      Decisions(cfg, Fresh(zero), run) == Decisions(Unpruned(cfg), Fresh(zero), run)
  }

  lemma ObservedExactlyWhenEarly(cfg: Config)
    requires Usable(cfg) && cfg.ttl > 0 && cfg.burst == cfg.burst.Floor as real
    ensures NeverObserved(cfg) <==> RefillsBeforePruning(cfg)
  {
    if RefillsBeforePruning(cfg) {
      forall zero, clock, run | Nondecreasing(clock, run) && NeverEvicts(cfg, Fresh(zero), run)
        ensures Decisions(cfg, Fresh(zero), run) == Decisions(Unpruned(cfg), Fresh(zero), run)
      {
        PruningIsUnobservable(cfg, Fresh(zero), clock, run);
      }
    } else {
      var idle := cfg.ttl + 1;
      var run := PruningIsObservable(cfg, 0, if idle >= MINUTE then 0 else MINUTE - idle);
    }
  }

  /** The same for the runs of a limiter that is first asked at some time or later. */
  ghost predicate NeverObservedFrom(cfg: Config, zero: Time, clock: Time) {
    forall run ::
      Nondecreasing(clock, run) && NeverEvicts(cfg, Fresh(zero), run) ==>
      Decisions(cfg, Fresh(zero), run) == Decisions(Unpruned(cfg), Fresh(zero), run)
  }

  /** It does not matter how long ago the zero time of the clock was, which is the time of the last pruning
      of a new limiter. */
  lemma ObservedAtAnyTime(cfg: Config, zero: Time, clock: Time)
    requires Usable(cfg) && cfg.ttl + 1 >= MINUTE && cfg.burst == cfg.burst.Floor as real && clock >= zero
    ensures NeverObservedFrom(cfg, zero, clock) <==> RefillsBeforePruning(cfg)
  {
    if RefillsBeforePruning(cfg) {
      forall run | Nondecreasing(clock, run) && NeverEvicts(cfg, Fresh(zero), run)
        ensures Decisions(cfg, Fresh(zero), run) == Decisions(Unpruned(cfg), Fresh(zero), run)
      {
        PruningIsUnobservable(cfg, Fresh(zero), clock, run);
      }
    } else {
      var run := PruningIsObservable(cfg, zero, clock);
    }
  }

  // ----- as configured

  /** A new client may make as many requests at once as were configured, and not one more; nothing configured
      means as many as are allowed in a minute. */
  lemma BurstIsAsConfigured(requestsPerMinute: int, burst: int, zero: Time, k: string, t: Time)
    requires k != ""
    ensures var perMinute: nat := if requestsPerMinute > 0 then requestsPerMinute else 60;
            var n: nat := if burst > 0 then burst else perMinute;
            var cfg, run := NewConfig(requestsPerMinute, burst), Repeat(Request(k, t), n);
            && (forall i :: 0 <= i < n ==> Decisions(cfg, Fresh(zero), run)[i])
            && !Allows(cfg, After(cfg, Fresh(zero), run), Request(k, t))
            && Gain(cfg.rate, t, t + MINUTE) == perMinute as real
  {
    hide Decisions, After, Prune, NeverEvicts, Nondecreasing;
    var perMinute: nat := if requestsPerMinute > 0 then requestsPerMinute else 60;
    var n: nat := if burst > 0 then burst else perMinute;
    var cfg := NewConfig(requestsPerMinute, burst);
    FreshPrune(cfg, zero, t);
    FreshBurst(cfg, Fresh(zero), k, t, n);
    EmptyRefuses(cfg, After(cfg, Fresh(zero), Repeat(Request(k, t), n)), k, t);
  }

  lemma EmptyRefuses(cfg: Config, s: State, k: string, t: Time)
    requires OneBucket(s, k, 0.0, t) && k != "" && cfg.ttl > 0
    ensures !Allows(cfg, s, Request(k, t))
  {
    assert Idle(cfg, s.buckets, t) == {};
    assert s.buckets - {} == s.buckets;
  }

  /** All clients without a key are one client. */
  lemma NoKeyIsOneClient(cfg: Config, s: State, now: Time)
    ensures Next(cfg, s, Request("", now)) == Next(cfg, s, Request("global", now))
    ensures Allows(cfg, s, Request("", now)) == Allows(cfg, s, Request("global", now))
  {
  }
}
