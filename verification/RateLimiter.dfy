/** The rate limiter of internal/traffic/limiter.go: one bucket per key, idle buckets pruned, the
    least recently used one evicted when there are too many. */
module RateLimiter {
  import opened KeyList
  import opened TokenBucket

  const DEFAULT_MAX_BUCKETS := 10000
  const DEFAULT_TTL: Time := 600 * SECOND

  datatype Config = Config(rate: real, burst: real, maxBuckets: int, ttl: Time)

  datatype State = State(buckets: map<string, Bucket>, recency: seq<string>, lastPrune: Time)

  datatype Request = Request(key: string, now: Time)

  /** NewRateLimiter: a rate per minute and a burst of whole requests. */
  function NewConfig(requestsPerMinute: int, burst: int): (cfg: Config)
    ensures cfg.rate > 0.0 && cfg.burst >= 1.0 && cfg.burst == cfg.burst.Floor as real && cfg.ttl >= MINUTE
  {
    var perMinute := if requestsPerMinute <= 0 then 60 else requestsPerMinute;
    var whole := if burst <= 0 then perMinute else burst;
    Config(perMinute as real / 60.0, whole as real, DEFAULT_MAX_BUCKETS, DEFAULT_TTL)
  }

  ghost predicate Usable(cfg: Config) {
    cfg.rate > 0.0 && cfg.burst >= 1.0
  }

  ghost predicate Consistent(cfg: Config, s: State) {
    && Lists(s.recency, s.buckets.Keys)
    && (cfg.maxBuckets > 0 ==> |s.buckets| <= cfg.maxBuckets)
    && (forall k :: k in s.buckets ==> Sound(cfg.burst, s.buckets[k]))
  }

  // ----- one request, as a function of the state

  function Idle(cfg: Config, buckets: map<string, Bucket>, now: Time): set<string> {
    set k | k in buckets && now - buckets[k].last > cfg.ttl
  }

  function Without(s: State, gone: set<string>): State {
    s.(buckets := s.buckets - gone, recency := Drop(s.recency, gone))
  }

  function Prune(cfg: Config, s: State, now: Time): State {
    if cfg.ttl <= 0 || now - s.lastPrune < MINUTE then
      s
    else
      Without(s, Idle(cfg, s.buckets, now)).(lastPrune := now)
  }

  function MakeRoom(cfg: Config, s: State, now: Time): State {
    if cfg.maxBuckets <= 0 || |s.buckets| < cfg.maxBuckets then
      s
    else
      (if s.recency == [] then s else Without(s, {s.recency[|s.recency| - 1]})).(lastPrune := now)
  }

  function Enter(cfg: Config, s: State, key: string, now: Time): State {
    s.(buckets := s.buckets[key := Bucket(cfg.burst - 1.0, now)], recency := [key] + s.recency)
  }

  function Touch(cfg: Config, s: State, key: string, now: Time): State
    requires key in s.buckets
  {
    s.(buckets := s.buckets[key := Spend(cfg.rate, cfg.burst, s.buckets[key], 1.0, now)], recency := [key] + Drop(s.recency, {key}))
  }

  function KeyOf(key: string): string {
    if key == "" then "global" else key
  }

  function Next(cfg: Config, s: State, r: Request): State {
    var key, pruned := KeyOf(r.key), Prune(cfg, s, r.now);
    if key in pruned.buckets then Touch(cfg, pruned, key, r.now) else Enter(cfg, MakeRoom(cfg, pruned, r.now), key, r.now)
  }

  function Allows(cfg: Config, s: State, r: Request): bool {
    var key, pruned := KeyOf(r.key), Prune(cfg, s, r.now);
    key !in pruned.buckets || Grants(cfg.rate, cfg.burst, pruned.buckets[key], 1.0, r.now)
  }

  // ----- the limiter itself

  lemma WithoutConsistent(cfg: Config, s: State, gone: set<string>)
    requires Consistent(cfg, s)
    ensures Consistent(cfg, Without(s, gone))
    ensures |Without(s, gone).buckets| <= |s.buckets|
  {
    DropLists(s.recency, s.buckets.Keys, gone);
    var rest := s.buckets - gone;
    assert rest.Keys == s.buckets.Keys - gone;
    SubsetSize(rest.Keys, s.buckets.Keys);
  }

  lemma MakeRoomConsistent(cfg: Config, s: State, now: Time)
    requires Consistent(cfg, s)
    ensures var room := MakeRoom(cfg, s, now);
            Consistent(cfg, room) && room.buckets.Keys <= s.buckets.Keys && (cfg.maxBuckets > 0 ==> |room.buckets| < cfg.maxBuckets)
  {
    if cfg.maxBuckets > 0 && |s.buckets| >= cfg.maxBuckets {
      ListsMembers(s.recency, s.buckets.Keys);
      var last := s.recency[|s.recency| - 1];
      WithoutConsistent(cfg, s, {last});
      assert (s.buckets - {last}).Keys == s.buckets.Keys - {last};
    }
  }

  lemma TouchConsistent(cfg: Config, s: State, key: string, now: Time)
    requires Usable(cfg) && Consistent(cfg, s) && key in s.buckets
    ensures Consistent(cfg, Touch(cfg, s, key, now))
  {
    hide Drop, Spend;
    SpendConserves(cfg.rate, cfg.burst, s.buckets[key], 1.0, now);
    DropLists(s.recency, s.buckets.Keys, {key});
    PrependLists(Drop(s.recency, {key}), s.buckets.Keys - {key}, key);
    var next := Touch(cfg, s, key, now);
    assert s.buckets.Keys - {key} + {key} == s.buckets.Keys == next.buckets.Keys;
    assert |next.buckets| == |next.buckets.Keys| == |s.buckets|;
  }

  lemma EnterConsistent(cfg: Config, s: State, key: string, now: Time)
    requires Usable(cfg) && Consistent(cfg, s) && key !in s.buckets
    requires cfg.maxBuckets > 0 ==> |s.buckets| < cfg.maxBuckets
    ensures Consistent(cfg, Enter(cfg, s, key, now))
  {
    PrependLists(s.recency, s.buckets.Keys, key);
    var next := Enter(cfg, s, key, now);
    assert next.buckets.Keys == s.buckets.Keys + {key};
    assert |next.buckets| == |next.buckets.Keys| == |s.buckets| + 1;
  }

  /** Every request keeps the list and the map in agreement, within bounds. */
  lemma NextConsistent(cfg: Config, s: State, r: Request)
    requires Usable(cfg) && Consistent(cfg, s)
    ensures Consistent(cfg, Next(cfg, s, r))
  {
    hide Drop, Spend, Consistent, MakeRoom, Touch, Enter, Without;
    var key, pruned := KeyOf(r.key), Prune(cfg, s, r.now);
    PrunedConsistent(cfg, s, r.now);
    if key in pruned.buckets {
      TouchConsistent(cfg, pruned, key, r.now);
    } else {
      MakeRoomConsistent(cfg, pruned, r.now);
      EnterConsistent(cfg, MakeRoom(cfg, pruned, r.now), key, r.now);
    }
  }

  lemma PrunedConsistent(cfg: Config, s: State, now: Time)
    requires Consistent(cfg, s)
    ensures Consistent(cfg, Prune(cfg, s, now))
  {
    WithoutConsistent(cfg, s, Idle(cfg, s.buckets, now));
  }

  class Limiter {
    const cfg: Config
    var buckets: map<string, Bucket>
    var recency: seq<string>
    var lastPrune: Time

    ghost function Abstract(): State
      reads this
    {
      State(buckets, recency, lastPrune)
    }

    ghost predicate Valid()
      reads this
    {
      Usable(cfg) && Consistent(cfg, Abstract())
    }

    constructor (requestsPerMinute: int, burst: int, zero: Time)
      ensures Valid() && Abstract() == State(map[], [], zero)
      ensures cfg == NewConfig(requestsPerMinute, burst)
    {
      cfg := NewConfig(requestsPerMinute, burst);
      buckets, recency, lastPrune := map[], [], zero;
    }

    method RemoveBucket(key: string)
      modifies this`buckets, this`recency
      ensures Abstract() == Without(old(Abstract()), {key})
    {
      buckets := buckets - {key};
      recency := Drop(recency, {key});
    }

    /** The idle buckets go in whatever order the map yields them. */
    method PruneAll(now: Time)
      modifies this
      ensures Abstract() == Prune(cfg, old(Abstract()), now)
    {
      if cfg.ttl <= 0 || now - lastPrune < MINUTE {
        return;
      }
      var all := buckets;
      var todo, gone := all.Keys, {};
      DropNothing(recency);
      while todo != {}
        invariant todo <= all.Keys && gone == Idle(cfg, all, now) - todo
        invariant Abstract() == Without(old(Abstract()), gone)
        decreases todo
      {
        var key :| key in todo;
        todo := todo - {key};
        if now - all[key].last > cfg.ttl {
          DropTwice(old(recency), gone, {key});
          RemoveBucket(key);
          gone := gone + {key};
        }
      }
      assert gone == Idle(cfg, all, now);
      lastPrune := now;
    }

    method EnsureCapacity(now: Time)
      modifies this
      ensures Abstract() == MakeRoom(cfg, old(Abstract()), now)
    {
      if cfg.maxBuckets <= 0 || |buckets| < cfg.maxBuckets {
        return;
      }
      if recency != [] {
        RemoveBucket(recency[|recency| - 1]);
      }
      lastPrune := now;
    }

    method AllowAt(key: string, now: Time) returns (allowed: bool)
      requires Valid()
      modifies this
      ensures Valid()
      ensures Abstract() == Next(cfg, old(Abstract()), Request(key, now))
      ensures allowed == Allows(cfg, old(Abstract()), Request(key, now))
    {
      hide Prune, MakeRoom, Drop, Consistent;
      NextConsistent(cfg, Abstract(), Request(key, now));
      var k := if key == "" then "global" else key;
      PruneAll(now);
      if k !in buckets {
        EnsureCapacity(now);
        recency := [k] + recency;
        buckets := buckets[k := Bucket(cfg.burst - 1.0, now)];
        return true;
      }
      recency := [k] + Drop(recency, {k});
      var b := Refill(cfg.rate, cfg.burst, buckets[k], now);
      allowed := b.tokens >= 1.0;
      if allowed {
        b := b.(tokens := b.tokens - 1.0);
      }
      buckets := buckets[k := b];
    }
  }
}
