/** The bandwidth limiter of internal/traffic/bandwidth.go: bytes instead of requests, and waiting
    instead of refusing. */
module Bandwidth {
  import opened KeyList
  import opened TokenBucket

  const MILLISECOND: Time := 1_000_000
  const DEFAULT_MAX_BUCKETS := 10000
  const DEFAULT_TTL: Time := 600 * SECOND

  datatype Config = Config(rate: real, burst: int, maxBuckets: int, ttl: Time)

  datatype State = State(buckets: map<string, Bucket>, lastPrune: Time)

  function NewConfig(bytesPerSecond: int, burstBytes: int): (cfg: Config)
    ensures Usable(cfg)
  {
    var rate := if bytesPerSecond <= 0 then 0x10_0000 else bytesPerSecond;
    Config(rate as real, if burstBytes <= 0 then rate else burstBytes, DEFAULT_MAX_BUCKETS, DEFAULT_TTL)
  }

  predicate Usable(cfg: Config) {
    cfg.rate > 0.0 && cfg.burst >= 1
  }

  ghost predicate Consistent(cfg: Config, s: State) {
    && (cfg.maxBuckets > 0 ==> |s.buckets| <= cfg.maxBuckets)
    && (forall k :: k in s.buckets ==> k != "" && Sound(cfg.burst as real, s.buckets[k]))
  }

  // ----- one reservation

  function Idle(cfg: Config, buckets: map<string, Bucket>, now: Time): set<string> {
    set k | k in buckets && now - buckets[k].last > cfg.ttl
  }

  function Prune(cfg: Config, s: State, now: Time): State {
    if cfg.ttl <= 0 || now - s.lastPrune < MINUTE then
      s
    else
      State(s.buckets - Idle(cfg, s.buckets, now), now)
  }

  predicate Full(cfg: Config, s: State) {
    cfg.maxBuckets > 0 && |s.buckets| >= cfg.maxBuckets
  }

  /** A bucket that no other has been idle for longer than. */
  ghost predicate IsOldest(buckets: map<string, Bucket>, victim: string) {
    victim in buckets && forall k :: k in buckets ==> buckets[victim].last <= buckets[k].last
  }

  /** The state in which key has a bucket; victim is the one that goes if there are too many. */
  function Open(cfg: Config, s: State, key: string, now: Time, victim: string): State {
    var pruned := Prune(cfg, s, now);
    if key in pruned.buckets then
      pruned
    else
      var room := if Full(cfg, pruned) then State(pruned.buckets - {victim}, now) else pruned;
      room.(buckets := room.buckets[key := Bucket(cfg.burst as real, now)])
  }

  function Reserve(cfg: Config, s: State, key: string, bytes: int, now: Time, victim: string): State {
    var open := Open(cfg, s, key, now, victim);
    open.(buckets := open.buckets[key := Spend(cfg.rate, cfg.burst as real, open.buckets[key], bytes as real, now)])
  }

  /** The bucket a reservation on key looks at. */
  function BucketFor(cfg: Config, s: State, key: string, now: Time): Bucket {
    var pruned := Prune(cfg, s, now);
    if key in pruned.buckets then pruned.buckets[key] else Bucket(cfg.burst as real, now)
  }

  function Nanoseconds(rate: real, missing: real): real
    requires rate > 0.0
  {
    missing / rate * 1000000000.0
  }

  /** What reserve returns: nothing to wait for, or the time the missing bytes take, truncated to whole
      nanoseconds, and a millisecond. */
  function WaitFor(cfg: Config, s: State, key: string, bytes: int, now: Time): Time
    requires Usable(cfg)
  {
    var full := Refill(cfg.rate, cfg.burst as real, BucketFor(cfg, s, key, now), now);
    if full.tokens >= bytes as real then
      0
    else
      Nanoseconds(cfg.rate, bytes as real - full.tokens).Floor + MILLISECOND
  }

  lemma PruneConsistent(cfg: Config, s: State, now: Time)
    requires Consistent(cfg, s)
    ensures Consistent(cfg, Prune(cfg, s, now))
  {
    SubsetSize((s.buckets - Idle(cfg, s.buckets, now)).Keys, s.buckets.Keys);
  }

  lemma OpenConsistent(cfg: Config, s: State, key: string, now: Time, victim: string)
    requires Usable(cfg) && Consistent(cfg, s) && key != ""
    requires var pruned := Prune(cfg, s, now); key !in pruned.buckets && Full(cfg, pruned) ==> victim in pruned.buckets
    ensures Consistent(cfg, Open(cfg, s, key, now, victim))
    ensures key in Open(cfg, s, key, now, victim).buckets
  {
    hide Prune, Consistent, Full;
    PruneConsistent(cfg, s, now);
    var pruned := Prune(cfg, s, now);
    if key !in pruned.buckets {
      var room := if Full(cfg, pruned) then State(pruned.buckets - {victim}, now) else pruned;
      RoomConsistent(cfg, pruned, now, victim);
      EnterConsistent(cfg, room, key, now);
    }
  }

  lemma RoomConsistent(cfg: Config, s: State, now: Time, victim: string)
    requires Consistent(cfg, s) && (Full(cfg, s) ==> victim in s.buckets)
    ensures var room := if Full(cfg, s) then State(s.buckets - {victim}, now) else s;
            Consistent(cfg, room) && !Full(cfg, room) && room.buckets.Keys <= s.buckets.Keys
  {
    if Full(cfg, s) {
      var rest := s.buckets - {victim};
      assert rest.Keys == s.buckets.Keys - {victim};
      assert |rest| == |rest.Keys| == |s.buckets| - 1;
    }
  }

  lemma EnterConsistent(cfg: Config, s: State, key: string, now: Time)
    requires Usable(cfg) && Consistent(cfg, s) && !Full(cfg, s) && key !in s.buckets && key != ""
    ensures Consistent(cfg, s.(buckets := s.buckets[key := Bucket(cfg.burst as real, now)]))
  {
    var more := s.buckets[key := Bucket(cfg.burst as real, now)];
    assert more.Keys == s.buckets.Keys + {key};
    assert |more| == |more.Keys| == |s.buckets| + 1;
  }

  lemma ReserveConsistent(cfg: Config, s: State, key: string, bytes: nat, now: Time, victim: string)
    requires Usable(cfg) && Consistent(cfg, s) && key != ""
    requires var pruned := Prune(cfg, s, now); key !in pruned.buckets && Full(cfg, pruned) ==> IsOldest(pruned.buckets, victim)
    ensures Consistent(cfg, Reserve(cfg, s, key, bytes, now, victim))
  {
    hide Prune, Open, Spend;
    OpenConsistent(cfg, s, key, now, victim);
    var open := Open(cfg, s, key, now, victim);
    SpendConserves(cfg.rate, cfg.burst as real, open.buckets[key], bytes as real, now);
    assert Reserve(cfg, s, key, bytes, now, victim).buckets.Keys == open.buckets.Keys;
    assert |Reserve(cfg, s, key, bytes, now, victim).buckets.Keys| == |open.buckets|;
  }

  lemma OpenedBucket(cfg: Config, s: State, key: string, now: Time, victim: string)
    ensures key in Open(cfg, s, key, now, victim).buckets
    ensures Open(cfg, s, key, now, victim).buckets[key] == BucketFor(cfg, s, key, now)
  {
  }

  // ----- waiting long enough

  lemma WaitIsEnough(rate: real, missing: real, wait: Time, waited: Time)
    requires rate > 0.0 && missing > 0.0
    requires wait == Nanoseconds(rate, missing).Floor + MILLISECOND && waited >= wait
    ensures wait > 0 && Gain(rate, 0, waited) >= missing
  {
    var x := Nanoseconds(rate, missing);
    var q := missing / rate;
    assert q > 0.0;
    assert x == q * 1000000000.0;
    assert waited as real >= x;
    assert Seconds(waited) >= q;
    TimesRate(rate, q, Seconds(waited));
    assert rate * q == missing;
  }

  /** The wait is no longer than it needs to be, but for the millisecond. */
  lemma WaitIsTight(rate: real, missing: real, wait: Time)
    requires rate > 0.0 && missing > 0.0
    requires wait == Nanoseconds(rate, missing).Floor + MILLISECOND
    ensures wait >= MILLISECOND && Gain(rate, 0, wait - MILLISECOND) <= missing
  {
    var exact := Nanoseconds(rate, missing);
    var whole := (wait - MILLISECOND) as real;
    assert whole <= exact;
    TimesRate(rate, whole / 1000000000.0, exact / 1000000000.0);
    assert exact / 1000000000.0 == missing / rate;
    assert rate * (missing / rate) == missing;
  }

  lemma TimesRate(rate: real, a: real, b: real)
    requires rate > 0.0 && a <= b
    ensures rate * a <= rate * b
  {
  }

  /** A reservation, and the bucket that gave way to it if one had to. */
  datatype Reservation = Reservation(key: string, bytes: int, now: Time, victim: string)

  function After(cfg: Config, s: State, others: seq<Reservation>): State
    decreases |others|
  {
    if others == [] then
      s
    else
      var o := others[0];
      After(cfg, Reserve(cfg, s, o.key, o.bytes, o.now, o.victim), others[1..])
  }

  /** Reservations on other keys can remove a bucket but not change it. */
  lemma {:induction false} OthersLeaveAlone(cfg: Config, s: State, others: seq<Reservation>, key: string)
    requires forall i :: 0 <= i < |others| ==> others[i].key != key
    ensures var t := After(cfg, s, others);
            key in t.buckets ==> key in s.buckets && t.buckets[key] == s.buckets[key]
    decreases |others|
  {
    if others != [] {
      var o := others[0];
      OthersLeaveAlone(cfg, Reserve(cfg, s, o.key, o.bytes, o.now, o.victim), others[1..], key);
    }
  }

  /** The bucket of a refused reservation, as the retry finds it: the same one, or a new one. */
  lemma RetryBucket(cfg: Config, s: State, key: string, bytes: nat, now: Time, victim: string, others: seq<Reservation>, later: Time)
    requires Usable(cfg) && (key in s.buckets ==> s.buckets[key].last <= now)
    requires forall i :: 0 <= i < |others| ==> others[i].key != key
    requires WaitFor(cfg, s, key, bytes, now) > 0
    ensures var refused := Refill(cfg.rate, cfg.burst as real, BucketFor(cfg, s, key, now), now);
            var found := BucketFor(cfg, After(cfg, Reserve(cfg, s, key, bytes, now, victim), others), key, later);
            && refused.last == now
            && (found == refused || found == Bucket(cfg.burst as real, later))
  {
    hide Refill, Nanoseconds, After, Idle;
    var after := Reserve(cfg, s, key, bytes, now, victim);
    var refused := Refill(cfg.rate, cfg.burst as real, BucketFor(cfg, s, key, now), now);
    RefillTime(cfg, BucketFor(cfg, s, key, now), now);
    assert after.buckets[key] == refused;
    OthersLeaveAlone(cfg, after, others, key);
  }

  lemma RefillTime(cfg: Config, b: Bucket, now: Time)
    requires b.last <= now
    ensures Refill(cfg.rate, cfg.burst as real, b, now).last == now
  {
  }

  /** A retry after the returned wait succeeds, if nobody else spent on the key: the truncation is made
      up for by the millisecond, and a bucket that is gone by then comes back full. */
  lemma WaitSuffices(cfg: Config, s: State, key: string, bytes: nat, now: Time, victim: string, others: seq<Reservation>, later: Time)
    requires Usable(cfg) && Consistent(cfg, s) && bytes <= cfg.burst
    requires key in s.buckets ==> s.buckets[key].last <= now
    requires forall i :: 0 <= i < |others| ==> others[i].key != key
    requires var wait := WaitFor(cfg, s, key, bytes, now); wait > 0 && later >= now + wait
    ensures var t := After(cfg, Reserve(cfg, s, key, bytes, now, victim), others);
            WaitFor(cfg, t, key, bytes, later) == 0
  {
    hide BucketFor, After, Reserve, Nanoseconds, Gain, Consistent;
    RetryBucket(cfg, s, key, bytes, now, victim, others, later);
    var refused := Refill(cfg.rate, cfg.burst as real, BucketFor(cfg, s, key, now), now);
    WaitIsEnough(cfg.rate, bytes as real - refused.tokens, WaitFor(cfg, s, key, bytes, now), later - now);
    SameGain(cfg.rate, now, later);
  }

  lemma SameGain(rate: real, a: Time, b: Time)
    ensures Gain(rate, a, b) == Gain(rate, 0, b - a)
  {
  }

  // ----- the window bound

  /** The bucket of k is neither pruned nor evicted during the run. */
  ghost predicate Lives(cfg: Config, s: State, run: seq<Reservation>, k: string)
    decreases |run|
  {
    k in s.buckets && (run != [] ==>
      var o := run[0];
      && k in Prune(cfg, s, o.now).buckets
      && k in Open(cfg, s, o.key, o.now, o.victim).buckets
      && (o.key != k ==> o.victim != k)
      && Lives(cfg, Reserve(cfg, s, o.key, o.bytes, o.now, o.victim), run[1..], k))
  }

  function AttemptsOf(run: seq<Reservation>, k: string): seq<Attempt>
    decreases |run|
  {
    if run == [] then []
    else if run[0].key == k then [Attempt(run[0].bytes as real, run[0].now)] + AttemptsOf(run[1..], k)
    else AttemptsOf(run[1..], k)
  }

  /** The bytes granted to k: those of the reservations with nothing to wait for. */
  function GrantedTo(cfg: Config, s: State, run: seq<Reservation>, k: string): int
    requires Usable(cfg)
    decreases |run|
  {
    if run == [] then
      0
    else
      var o := run[0];
      (if o.key == k && WaitFor(cfg, s, k, o.bytes, o.now) <= 0 then o.bytes else 0) +
      GrantedTo(cfg, Reserve(cfg, s, o.key, o.bytes, o.now, o.victim), run[1..], k)
  }

  lemma NoWaitMeansGranted(cfg: Config, s: State, k: string, bytes: int, now: Time)
    requires Usable(cfg)
    ensures WaitFor(cfg, s, k, bytes, now) <= 0 <==> Grants(cfg.rate, cfg.burst as real, BucketFor(cfg, s, k, now), bytes as real, now)
  {
    hide Refill, BucketFor, Nanoseconds;
    var full := Refill(cfg.rate, cfg.burst as real, BucketFor(cfg, s, k, now), now);
    if full.tokens < bytes as real {
      WaitIsEnough(cfg.rate, bytes as real - full.tokens, WaitFor(cfg, s, k, bytes, now), WaitFor(cfg, s, k, bytes, now));
    }
  }

  lemma {:induction false} LifeIsBucketRun(cfg: Config, s: State, run: seq<Reservation>, k: string)
    requires Usable(cfg) && Lives(cfg, s, run, k)
    ensures k in After(cfg, s, run).buckets
    ensures After(cfg, s, run).buckets[k] == Run(cfg.rate, cfg.burst as real, s.buckets[k], AttemptsOf(run, k))
    ensures GrantedTo(cfg, s, run, k) as real == Granted(cfg.rate, cfg.burst as real, s.buckets[k], AttemptsOf(run, k))
    decreases |run|
  {
    hide Spend, Grants, WaitFor, Idle, Refill;
    if run != [] {
      var o := run[0];
      LifeIsBucketRun(cfg, Reserve(cfg, s, o.key, o.bytes, o.now, o.victim), run[1..], k);
      if o.key == k {
        NoWaitMeansGranted(cfg, s, k, o.bytes, o.now);
        assert BucketFor(cfg, s, k, o.now) == s.buckets[k];
        assert AttemptsOf(run, k)[1..] == AttemptsOf(run[1..], k);
      }
    }
  }

  lemma {:induction false} AttemptsOfBytes(run: seq<Reservation>, k: string)
    requires forall i :: 0 <= i < |run| ==> run[i].bytes >= 0
    ensures forall i :: 0 <= i < |AttemptsOf(run, k)| ==> AttemptsOf(run, k)[i].amount >= 0.0
    decreases |run|
  {
    if run != [] {
      AttemptsOfBytes(run[1..], k);
    }
  }

  /** Between any two points of a bucket's life, the bytes granted are at most the burst and the rate
      over the time in between, even when clock readings go backwards. */
  lemma LifetimeBound(cfg: Config, s: State, run: seq<Reservation>, k: string)
    requires Usable(cfg) && Consistent(cfg, s) && Lives(cfg, s, run, k)
    requires forall i :: 0 <= i < |run| ==> run[i].bytes >= 0
    ensures k in After(cfg, s, run).buckets
    ensures var first, last := s.buckets[k], After(cfg, s, run).buckets[k];
            && first.last <= last.last && last.tokens >= 0.0
            && GrantedTo(cfg, s, run, k) as real + last.tokens <= first.tokens + Gain(cfg.rate, first.last, last.last)
            && GrantedTo(cfg, s, run, k) as real <= cfg.burst as real + Gain(cfg.rate, first.last, last.last)
  {
    hide Run, Granted, GrantedTo, AttemptsOf, After, Gain;
    LifeIsBucketRun(cfg, s, run, k);
    AttemptsOfBytes(run, k);
    WindowBound(cfg.rate, cfg.burst as real, s.buckets[k], AttemptsOf(run, k));
  }

  /** A new bucket grants whatever does not exceed the burst. */
  lemma NewBucketGrants(cfg: Config, s: State, o: Reservation)
    requires Usable(cfg) && o.key !in Prune(cfg, s, o.now).buckets
    ensures BucketFor(cfg, s, o.key, o.now) == Bucket(cfg.burst as real, o.now)
    ensures Grants(cfg.rate, cfg.burst as real, BucketFor(cfg, s, o.key, o.now), o.bytes as real, o.now) <==> o.bytes <= cfg.burst
    ensures WaitFor(cfg, s, o.key, o.bytes, o.now) == 0 <==> o.bytes <= cfg.burst
  {
    hide Prune, Nanoseconds;
    if o.bytes > cfg.burst {
      var missing := o.bytes as real - cfg.burst as real;
      var wait := Nanoseconds(cfg.rate, missing).Floor + MILLISECOND;
      WaitIsEnough(cfg.rate, missing, wait, wait);
    }
  }

  /** The reservation that makes the bucket counts too, and it may take the whole burst. */
  lemma LifetimeBoundFromCreation(cfg: Config, s: State, o: Reservation, run: seq<Reservation>)
    requires Usable(cfg) && o.bytes >= 0 && forall i :: 0 <= i < |run| ==> run[i].bytes >= 0
    requires o.key !in Prune(cfg, s, o.now).buckets
    requires Lives(cfg, Reserve(cfg, s, o.key, o.bytes, o.now, o.victim), run, o.key)
    ensures var made := Reserve(cfg, s, o.key, o.bytes, o.now, o.victim);
            && o.key in After(cfg, made, run).buckets
            && (WaitFor(cfg, s, o.key, o.bytes, o.now) == 0 <==> o.bytes <= cfg.burst)
            && (if o.bytes <= cfg.burst then o.bytes else 0) as real + GrantedTo(cfg, made, run, o.key) as real
               <= cfg.burst as real + Gain(cfg.rate, o.now, After(cfg, made, run).buckets[o.key].last)
  {
    hide Run, Granted, GrantedTo, AttemptsOf, After, Gain, WaitFor, Prune, Open, Refill, Spend, Grants;
    var k, made := o.key, Reserve(cfg, s, o.key, o.bytes, o.now, o.victim);
    OpenedBucket(cfg, s, k, o.now, o.victim);
    var created := BucketFor(cfg, s, k, o.now);
    assert made.buckets[k] == Spend(cfg.rate, cfg.burst as real, created, o.bytes as real, o.now);
    NewBucketGrants(cfg, s, o);
    SpendConserves(cfg.rate, cfg.burst as real, created, o.bytes as real, o.now);
    LifeIsBucketRun(cfg, made, run, k);
    AttemptsOfBytes(run, k);
    WindowBound(cfg.rate, cfg.burst as real, made.buckets[k], AttemptsOf(run, k));
    NoGain(cfg.rate, o.now);
  }

  // ----- the limiter

  /** Before one of the caller's attempts: what other callers do, and the time the attempt is made. */
  datatype Turn = Turn(others: seq<Charge>, now: Time)

  /** A chunk that was charged to the bucket of key. */
  datatype Part = Part(key: string, bytes: nat)

  function Total(parts: seq<Part>): nat {
    if parts == [] then 0 else Total(parts[..|parts| - 1]) + parts[|parts| - 1].bytes
  }

  datatype Charge = Charge(key: string, bytes: nat, now: Time)

  class Limiter {
    const cfg: Config
    var buckets: map<string, Bucket>
    var lastPrune: Time

    // What was charged to the caller whose Wait is followed, chunk by chunk.
    ghost var charged: seq<Part>

    ghost function Abstract(): State
      reads this`buckets, this`lastPrune
    {
      State(buckets, lastPrune)
    }

    ghost predicate Valid()
      reads this`buckets, this`lastPrune
    {
      Usable(cfg) && Consistent(cfg, Abstract())
    }

    constructor (bytesPerSecond: int, burstBytes: int, zero: Time)
      ensures Valid() && Abstract() == State(map[], zero) && charged == []
      ensures cfg == NewConfig(bytesPerSecond, burstBytes)
    {
      cfg := NewConfig(bytesPerSecond, burstBytes);
      buckets, lastPrune, charged := map[], zero, [];
    }

    method PruneAll(now: Time)
      modifies this`buckets, this`lastPrune
      ensures Abstract() == Prune(cfg, old(Abstract()), now)
    {
      if cfg.ttl <= 0 || now - lastPrune < MINUTE {
        return;
      }
      var all := buckets;
      var todo, gone := all.Keys, {};
      while todo != {}
        invariant todo <= all.Keys && gone == Idle(cfg, all, now) - todo
        invariant buckets == all - gone && lastPrune == old(lastPrune)
        decreases todo
      {
        var key :| key in todo;
        todo := todo - {key};
        if now - all[key].last > cfg.ttl {
          buckets := buckets - {key};
          gone := gone + {key};
        }
      }
      assert gone == Idle(cfg, all, now);
      lastPrune := now;
    }

    /** Finds a bucket that has been idle longest by looking at all of them in any order. */
    method EnsureCapacity(now: Time) returns (victim: string)
      requires "" !in buckets
      modifies this`buckets, this`lastPrune
      ensures Full(cfg, old(Abstract())) ==> IsOldest(old(buckets), victim)
      ensures Abstract() == if Full(cfg, old(Abstract())) then State(old(buckets) - {victim}, now) else old(Abstract())
    {
      victim := "";
      if cfg.maxBuckets <= 0 || |buckets| < cfg.maxBuckets {
        return;
      }
      var oldest: Time := 0;
      var todo := buckets.Keys;
      while todo != {}
        invariant todo <= buckets.Keys
        invariant victim == "" ==> todo == buckets.Keys
        invariant victim != "" ==> victim in buckets && oldest == buckets[victim].last
        invariant victim != "" ==> forall k :: k in buckets && k !in todo ==> oldest <= buckets[k].last
        decreases todo
      {
        var key :| key in todo;
        todo := todo - {key};
        if victim == "" || buckets[key].last < oldest {
          victim := key;
          oldest := buckets[key].last;
        }
      }
      if victim != "" {
        buckets := buckets - {victim};
      }
      lastPrune := now;
    }

    /** Finds or makes the bucket of key. */
    method OpenBucket(key: string, now: Time) returns (ghost victim: string)
      requires Valid() && key != ""
      modifies this`buckets, this`lastPrune
      ensures Valid() && key in buckets
      ensures Abstract() == Open(cfg, old(Abstract()), key, now, victim)
      ensures var pruned := Prune(cfg, old(Abstract()), now);
              key !in pruned.buckets && Full(cfg, pruned) ==> IsOldest(pruned.buckets, victim)
    {
      hide Prune;
      ghost var s := Abstract();
      victim := "";
      PruneConsistent(cfg, s, now);
      PruneAll(now);
      if key !in buckets {
        victim := EnsureCapacity(now);
        buckets := buckets[key := Bucket(cfg.burst as real, now)];
      }
      OpenConsistent(cfg, s, key, now, victim);
    }

    method TryReserve(key: string, bytes: nat, now: Time, ghost mine: bool) returns (wait: Time, ghost victim: string)
      requires Valid() && key != ""
      modifies this
      ensures Valid()
      ensures Abstract() == Reserve(cfg, old(Abstract()), key, bytes, now, victim)
      ensures var pruned := Prune(cfg, old(Abstract()), now);
              key !in pruned.buckets && Full(cfg, pruned) ==> IsOldest(pruned.buckets, victim)
      ensures wait == WaitFor(cfg, old(Abstract()), key, bytes, now)
      ensures charged == old(charged) + if mine && wait <= 0 then [Part(key, bytes)] else []
    {
      hide Prune, Nanoseconds, Consistent, IsOldest;
      ghost var s := Abstract();
      victim := OpenBucket(key, now);
      ReserveConsistent(cfg, s, key, bytes, now, victim);
      OpenedBucket(cfg, s, key, now, victim);
      var b := Refill(cfg.rate, cfg.burst as real, buckets[key], now);
      if b.tokens >= bytes as real {
        buckets := buckets[key := b.(tokens := b.tokens - bytes as real)];
        wait := 0;
        charged := charged + if mine then [Part(key, bytes)] else [];
      } else {
        buckets := buckets[key := b];
        wait := Nanoseconds(cfg.rate, bytes as real - b.tokens).Floor + MILLISECOND;
        WaitIsEnough(cfg.rate, bytes as real - b.tokens, wait, wait);
      }
    }

    method OtherCallers(others: seq<Charge>)
      requires Valid()
      modifies this
      ensures Valid() && charged == old(charged)
    {
      for i := 0 to |others|
        invariant Valid() && charged == old(charged)
      {
        var key := if others[i].key == "" then "global" else others[i].key;
        var wait, victim := TryReserve(key, others[i].bytes, others[i].now, false);
      }
    }

    /** One chunk, which must fit the burst; the turns end when the request is cancelled. */
    method WaitChunk(key: string, bytes: nat, turns: seq<Turn>) returns (ok: bool, rest: seq<Turn>)
      requires Valid() && key != "" && 1 <= bytes <= cfg.burst
      modifies this
      ensures Valid()
      ensures charged == old(charged) + if ok then [Part(key, bytes)] else []
      ensures !ok ==> rest == []
    {
      rest := turns;
      while rest != []
        invariant Valid() && charged == old(charged)
        decreases |rest|
      {
        var turn := rest[0];
        rest := rest[1..];
        OtherCallers(turn.others);
        var wait, victim := TryReserve(key, bytes, turn.now, true);
        if wait <= 0 {
          return true, rest;
        }
      }
      ok := false;
    }

    /** A wait that succeeds has charged exactly the bytes asked for to the bucket of its key, in chunks that
        fit the burst, whatever other callers did in the meantime; one that is cancelled has charged less. */
    method Wait(key: string, bytes: int, turns: seq<Turn>) returns (ok: bool)
      requires Valid()
      modifies this
      ensures Valid()
      ensures old(charged) <= charged
      ensures var mine := charged[|old(charged)|..];
              && (forall p :: p in mine ==> p.key == (if key == "" then "global" else key) && 1 <= p.bytes <= cfg.burst)
              && (ok ==> Total(mine) == if bytes > 0 then bytes else 0)
              && (!ok ==> Total(mine) < bytes)
    {
      ghost var mine: seq<Part> := [];
      if bytes <= 0 {
        return true;
      }
      var k := if key == "" then "global" else key;
      var remaining, rest := bytes, turns;
      while remaining > 0
        invariant Valid() && 0 <= remaining <= bytes
        invariant charged == old(charged) + mine && Total(mine) == bytes - remaining
        invariant forall p :: p in mine ==> p.key == k && 1 <= p.bytes <= cfg.burst
        decreases remaining
      {
        var chunk := if remaining > cfg.burst then cfg.burst else remaining;
        ok, rest := WaitChunk(k, chunk, rest);
        if !ok {
          assert charged[|old(charged)|..] == mine;
          return;
        }
        remaining := remaining - chunk;
        assert (mine + [Part(k, chunk)])[..|mine|] == mine;
        mine := mine + [Part(k, chunk)];
      }
      assert charged[|old(charged)|..] == mine;
      ok := true;
    }
  }
}
