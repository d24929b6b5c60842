/** What forgetting idle buckets does to the waits of a bandwidth limiter over whole runs. */
module BandwidthRuns {
  import opened TokenBucket
  import opened Bandwidth

  /** The waits a run is answered with, one for each reservation. */
  function Waits(cfg: Config, s: State, run: seq<Reservation>): (w: seq<Time>)
    requires Usable(cfg)
    ensures |w| == |run|
    decreases |run|
  {
    if run == [] then
      []
    else
      var o := run[0];
      [WaitFor(cfg, s, o.key, o.bytes, o.now)] + Waits(cfg, Reserve(cfg, s, o.key, o.bytes, o.now, o.victim), run[1..])
  }

  /** The same limiter, that never prunes and never evicts. */
  function Unpruned(cfg: Config): Config {
    cfg.(maxBuckets := 0, ttl := 0)
  }

  function Fresh(zero: Time): State {
    State(map[], zero)
  }

  ghost predicate Nondecreasing(clock: Time, run: seq<Reservation>)
    decreases |run|
  {
    run == [] || (clock <= run[0].now && run[0].bytes >= 0 && Nondecreasing(run[0].now, run[1..]))
  }

  /** Nobody has to make room for anybody. */
  ghost predicate NeverEvicts(cfg: Config, s: State, run: seq<Reservation>)
    decreases |run|
  {
    run == [] ||
    var o := run[0];
    var pruned := Prune(cfg, s, o.now);
    && (o.key in pruned.buckets || !Full(cfg, pruned))
    && NeverEvicts(cfg, Reserve(cfg, s, o.key, o.bytes, o.now, o.victim), run[1..])
  }

  /** An idle bucket has earned the whole burst by the time it may be pruned. */
  ghost predicate RefillsBeforePruning(cfg: Config) {
    Gain(cfg.rate, 0, cfg.ttl + 1) >= cfg.burst as real
  }

  /** The buckets that are missing in p are idle in u. */
  ghost predicate Simulates(cfg: Config, p: State, u: State, clock: Time) {
    && (forall k :: k in p.buckets ==> k in u.buckets && p.buckets[k] == u.buckets[k])
    && (forall k :: k in u.buckets ==>
          && Sound(cfg.burst as real, u.buckets[k])
          && u.buckets[k].last <= clock
          && (k !in p.buckets ==> clock - u.buckets[k].last > cfg.ttl))
  }

  lemma PruneSimulates(cfg: Config, p: State, u: State, clock: Time, now: Time)
    requires Simulates(cfg, p, u, clock) && clock <= now
    ensures Simulates(cfg, Prune(cfg, p, now), u, now)
  {
  }

  lemma SimulatesAt(cfg: Config, p: State, u: State, clock: Time, key: string)
    requires Simulates(cfg, p, u, clock)
    ensures key in p.buckets ==> key in u.buckets && p.buckets[key] == u.buckets[key]
    ensures key in u.buckets ==> Sound(cfg.burst as real, u.buckets[key])
    ensures key in u.buckets && key !in p.buckets ==> clock - u.buckets[key].last > cfg.ttl
  {
  }

  lemma UnprunedPrune(cfg: Config, u: State, now: Time)
    ensures Prune(Unpruned(cfg), u, now) == u && !Full(Unpruned(cfg), u)
  {
  }

  /** A bucket that was idle that long is full again. */
  lemma IdleIsFull(cfg: Config, b: Bucket, now: Time)
    requires Usable(cfg) && cfg.ttl > 0 && RefillsBeforePruning(cfg) && Sound(cfg.burst as real, b) && now - b.last > cfg.ttl
    ensures Refill(cfg.rate, cfg.burst as real, b, now) == Bucket(cfg.burst as real, now)
  {
    GainGrows(cfg.rate, 0, cfg.ttl + 1, now - b.last);
    SameGain(cfg.rate, b.last, now);
  }

  lemma NewIsFull(cfg: Config, now: Time)
    ensures Refill(cfg.rate, cfg.burst as real, Bucket(cfg.burst as real, now), now) == Bucket(cfg.burst as real, now)
  {
  }

  /** After either limiter's look, the bucket of the reservation is the same. */
  lemma SameBucket(cfg: Config, p: State, u: State, clock: Time, o: Reservation)
    requires Usable(cfg) && cfg.ttl > 0 && RefillsBeforePruning(cfg)
    requires Simulates(cfg, p, u, clock) && clock <= o.now
    ensures Refill(cfg.rate, cfg.burst as real, BucketFor(cfg, p, o.key, o.now), o.now)
         == Refill(cfg.rate, cfg.burst as real, BucketFor(Unpruned(cfg), u, o.key, o.now), o.now)
  {
    hide Prune, Refill, RefillsBeforePruning, Simulates;
    var pruned := Prune(cfg, p, o.now);
    PruneSimulates(cfg, p, u, clock, o.now);
    UnprunedPrune(cfg, u, o.now);
    SimulatesAt(cfg, pruned, u, o.now, o.key);
    NewIsFull(cfg, o.now);
    if o.key !in pruned.buckets && o.key in u.buckets {
      IdleIsFull(cfg, u.buckets[o.key], o.now);
    }
  }

  /** What is spent depends on the refilled bucket alone. */
  lemma SpendRefilled(rate: real, burst: real, a: Bucket, b: Bucket, amount: real, now: Time)
    requires Refill(rate, burst, a, now) == Refill(rate, burst, b, now)
    ensures Spend(rate, burst, a, amount, now) == Spend(rate, burst, b, amount, now)
  {
  }

  lemma StepSimulates(cfg: Config, p: State, u: State, clock: Time, o: Reservation)
    requires Usable(cfg) && cfg.ttl > 0 && RefillsBeforePruning(cfg) && o.bytes >= 0
    requires Simulates(cfg, p, u, clock) && clock <= o.now && NeverEvicts(cfg, p, [o])
    ensures WaitFor(cfg, p, o.key, o.bytes, o.now) == WaitFor(Unpruned(cfg), u, o.key, o.bytes, o.now)
    ensures Simulates(cfg, Reserve(cfg, p, o.key, o.bytes, o.now, o.victim), Reserve(Unpruned(cfg), u, o.key, o.bytes, o.now, o.victim), o.now)
  {
    hide Prune, Refill, RefillsBeforePruning, Simulates, BucketFor, Spend, Open, Nanoseconds;
    var a, b := BucketFor(cfg, p, o.key, o.now), BucketFor(Unpruned(cfg), u, o.key, o.now);
    SameBucket(cfg, p, u, clock, o);
    SpendRefilled(cfg.rate, cfg.burst as real, a, b, o.bytes as real, o.now);
    OpenedBucket(cfg, p, o.key, o.now, o.victim);
    OpenedBucket(Unpruned(cfg), u, o.key, o.now, o.victim);
    PruneSimulates(cfg, p, u, clock, o.now);
    BucketIsSound(cfg, u, clock, p, o);
    SpendConserves(cfg.rate, cfg.burst as real, b, o.bytes as real, o.now);
    OpenElsewhere(cfg, p, u, o);
    SpentSimulates(cfg, Prune(cfg, p, o.now), u, o.now, o.key,
                   Reserve(cfg, p, o.key, o.bytes, o.now, o.victim), Reserve(Unpruned(cfg), u, o.key, o.bytes, o.now, o.victim));
  }

  lemma BucketIsSound(cfg: Config, u: State, clock: Time, p: State, o: Reservation)
    requires Usable(cfg) && Simulates(cfg, p, u, clock) && clock <= o.now
    ensures var b := BucketFor(Unpruned(cfg), u, o.key, o.now); Sound(cfg.burst as real, b) && b.last <= o.now
  {
    UnprunedPrune(cfg, u, o.now);
  }

  /** Other buckets are those of before, but for the pruned ones. */
  lemma OpenElsewhere(cfg: Config, p: State, u: State, o: Reservation)
    requires NeverEvicts(cfg, p, [o])
    ensures forall k :: k != o.key ==>
              var x, y := Open(cfg, p, o.key, o.now, o.victim), Prune(cfg, p, o.now);
              (k in x.buckets <==> k in y.buckets) && (k in x.buckets ==> x.buckets[k] == y.buckets[k])
    ensures forall k :: k != o.key ==>
              var x := Open(Unpruned(cfg), u, o.key, o.now, o.victim);
              (k in x.buckets <==> k in u.buckets) && (k in x.buckets ==> x.buckets[k] == u.buckets[k])
  {
    hide Prune;
    UnprunedPrune(cfg, u, o.now);
  }

  lemma SpentSimulates(cfg: Config, p: State, u: State, now: Time, key: string, p': State, u': State)
    requires Simulates(cfg, p, u, now)
    requires key in p'.buckets && key in u'.buckets && p'.buckets[key] == u'.buckets[key]
    requires Sound(cfg.burst as real, u'.buckets[key]) && u'.buckets[key].last <= now
    requires forall k :: k != key ==> (k in p'.buckets <==> k in p.buckets) && (k in p'.buckets ==> p'.buckets[k] == p.buckets[k])
    requires forall k :: k != key ==> (k in u'.buckets <==> k in u.buckets) && (k in u'.buckets ==> u'.buckets[k] == u.buckets[k])
    ensures Simulates(cfg, p', u', now)
  {
  }

  lemma {:induction false} RunsSimulate(cfg: Config, p: State, u: State, clock: Time, run: seq<Reservation>)
    requires Usable(cfg) && cfg.ttl > 0 && RefillsBeforePruning(cfg)
    requires Simulates(cfg, p, u, clock) && Nondecreasing(clock, run) && NeverEvicts(cfg, p, run)
    ensures Waits(cfg, p, run) == Waits(Unpruned(cfg), u, run)
    decreases |run|
  {
    hide Simulates, WaitFor, Reserve, RefillsBeforePruning, Prune;
    if run != [] {
      var o := run[0];
      assert [o][1..] == [];
      assert NeverEvicts(cfg, p, [o]);
      StepSimulates(cfg, p, u, clock, o);
      RunsSimulate(cfg, Reserve(cfg, p, o.key, o.bytes, o.now, o.victim), Reserve(Unpruned(cfg), u, o.key, o.bytes, o.now, o.victim), o.now, run[1..]);
    }
  }

  /** From any state whose buckets lie in the past, pruning changes no wait of any run. */
  lemma PruningIsUnobservable(cfg: Config, s: State, clock: Time, run: seq<Reservation>)
    requires Usable(cfg) && Consistent(cfg, s) && cfg.ttl > 0 && RefillsBeforePruning(cfg)
    requires forall k :: k in s.buckets ==> s.buckets[k].last <= clock
    requires Nondecreasing(clock, run) && NeverEvicts(cfg, s, run)
    ensures Waits(cfg, s, run) == Waits(Unpruned(cfg), s, run)
  {
    hide RefillsBeforePruning, Nondecreasing, NeverEvicts, Waits;
    RunsSimulate(cfg, s, s, clock, run);
  }

  // ----- and when it can be observed

  ghost predicate NeverObservedFrom(cfg: Config, zero: Time, clock: Time)
    requires Usable(cfg)
  {
    forall run ::
      Nondecreasing(clock, run) && NeverEvicts(cfg, Fresh(zero), run) ==>
      Waits(cfg, Fresh(zero), run) == Waits(Unpruned(cfg), Fresh(zero), run)
  }

  /** Nothing is seen of the pruning of a new limiter exactly when an idle bucket has refilled before it is
      pruned: otherwise who spends the burst, waits for the pruning and spends another sees it. */
  lemma ObservedExactlyWhenEarly(cfg: Config, zero: Time, clock: Time)
    requires Usable(cfg) && cfg.ttl + 1 >= MINUTE && clock >= zero
    ensures NeverObservedFrom(cfg, zero, clock) <==> RefillsBeforePruning(cfg)
  {
    hide Nondecreasing, NeverEvicts, Waits, RefillsBeforePruning;
    if RefillsBeforePruning(cfg) {
      forall run | Nondecreasing(clock, run) && NeverEvicts(cfg, Fresh(zero), run)
        ensures Waits(cfg, Fresh(zero), run) == Waits(Unpruned(cfg), Fresh(zero), run)
      {
        PruningIsUnobservable(cfg, Fresh(zero), clock, run);
      }
    } else {
      var later := clock + cfg.ttl + 1;
      var one, two := Reservation("k", cfg.burst, clock, ""), Reservation("k", cfg.burst, later, "");
      TwoBursts(cfg, zero, one, two);
      assert Waits(cfg, Fresh(zero), [one, two])[1] != Waits(Unpruned(cfg), Fresh(zero), [one, two])[1];
    }
  }

  /** The state after a burst on the only bucket. */
  ghost predicate Spent(s: State, t: Time, lastPrune: Time) {
    s == State(map["k" := Bucket(0.0, t)], lastPrune)
  }

  lemma BurstSpends(cfg: Config, s: State, o: Reservation)
    requires Usable(cfg) && o.key == "k" && o.bytes == cfg.burst && o.victim == ""
    requires Prune(cfg, s, o.now).buckets == map[]
    ensures Spent(Reserve(cfg, s, "k", cfg.burst, o.now, ""), o.now, Prune(cfg, s, o.now).lastPrune)
    ensures WaitFor(cfg, s, "k", cfg.burst, o.now) == 0
    ensures NeverEvicts(cfg, s, [o])
  {
    hide Prune;
    var pruned := Prune(cfg, s, o.now);
    assert |pruned.buckets| == 0;
    assert [o][1..] == [];
    NewIsFull(cfg, o.now);
    assert Open(cfg, s, "k", o.now, "").buckets == map["k" := Bucket(cfg.burst as real, o.now)];
  }

  lemma FreshPrune(cfg: Config, zero: Time, t: Time)
    ensures Prune(cfg, Fresh(zero), t) == Fresh(if cfg.ttl <= 0 || t - zero < MINUTE then zero else t)
  {
    var s := Fresh(zero);
    assert s.buckets - Idle(cfg, s.buckets, t) == map[];
  }

  lemma SpentPrune(cfg: Config, s: State, t: Time, last: Time, later: Time)
    requires Spent(s, t, last) && cfg.ttl > 0 && later - t > cfg.ttl && later - last >= MINUTE
    ensures Prune(cfg, s, later).buckets == map[]
  {
    assert Idle(cfg, s.buckets, later) == {"k"};
  }

  lemma SpentWaits(cfg: Config, s: State, t: Time, last: Time, later: Time)
    requires Usable(cfg) && Spent(s, t, last) && later > t && Gain(cfg.rate, t, later) < cfg.burst as real
    ensures WaitFor(Unpruned(cfg), s, "k", cfg.burst, later) > 0
  {
    hide Nanoseconds;
    UnprunedPrune(cfg, s, later);
    var full := Refill(cfg.rate, cfg.burst as real, s.buckets["k"], later);
    assert full.tokens == Gain(cfg.rate, t, later);
    var missing := cfg.burst as real - full.tokens;
    WaitIsEnough(cfg.rate, missing, Nanoseconds(cfg.rate, missing).Floor + MILLISECOND, Nanoseconds(cfg.rate, missing).Floor + MILLISECOND);
  }

  lemma TwoBursts(cfg: Config, zero: Time, one: Reservation, two: Reservation)
    requires Usable(cfg) && cfg.ttl + 1 >= MINUTE && one.now >= zero && !RefillsBeforePruning(cfg)
    requires one == Reservation("k", cfg.burst, one.now, "") && two == Reservation("k", cfg.burst, one.now + cfg.ttl + 1, "")
    ensures var run := [one, two];
            && Nondecreasing(one.now, run) && NeverEvicts(cfg, Fresh(zero), run)
            && Waits(cfg, Fresh(zero), run)[1] == 0
            && Waits(Unpruned(cfg), Fresh(zero), run)[1] > 0
  {
    hide Prune, WaitFor, Reserve, Gain;
    var s := Fresh(zero);
    FreshPrune(cfg, zero, one.now);
    FreshPrune(Unpruned(cfg), zero, one.now);
    BurstSpends(cfg, s, one);
    BurstSpends(Unpruned(cfg), s, one);
    var p, u := Reserve(cfg, s, "k", cfg.burst, one.now, ""), Reserve(Unpruned(cfg), s, "k", cfg.burst, one.now, "");
    SpentPrune(cfg, p, one.now, Prune(cfg, s, one.now).lastPrune, two.now);
    BurstSpends(cfg, p, two);
    SameGain(cfg.rate, one.now, two.now);
    SpentWaits(cfg, u, one.now, Prune(Unpruned(cfg), s, one.now).lastPrune, two.now);
    var run := [one, two];
    assert run[1..] == [two] && [two][1..] == [] && [one][0] == run[0];
    assert Nondecreasing(two.now, [two]) && Nondecreasing(one.now, run);
    NeverEvictsFirst(cfg, s, one, [two]);
    assert [one] + [two] == run;
  }

  lemma NeverEvictsFirst(cfg: Config, s: State, o: Reservation, rest: seq<Reservation>)
    requires NeverEvicts(cfg, s, [o]) && NeverEvicts(cfg, Reserve(cfg, s, o.key, o.bytes, o.now, o.victim), rest)
    ensures NeverEvicts(cfg, s, [o] + rest)
  {
    hide Prune, Full, Reserve;
    assert ([o] + rest)[1..] == rest;
  }

  /** A limiter gives a second at a time what was configured, and as much at once. */
  lemma RateIsAsConfigured(bytesPerSecond: int, burstBytes: int, t: Time)
    ensures var perSecond := if bytesPerSecond > 0 then bytesPerSecond else 1048576;
            var cfg := NewConfig(bytesPerSecond, burstBytes);
            && Gain(cfg.rate, t, t + SECOND) == perSecond as real
            && cfg.burst == (if burstBytes > 0 then burstBytes else perSecond)
            && cfg.ttl + 1 >= MINUTE
  {
  }
}
