/** The challenge store of internal/challenge/challenge.go. Each method is one section the source
    runs under its mutex; clock readings, random answers and random ids are inputs. */
module Challenge {
  import opened Strings
  import opened OrderedExpiry
  import opened History
  import opened KeyList

  const CHALLENGE_ID_LENGTH: nat := 22
  const MAX_ANSWER_BYTES: nat := 256
  const MAX_STORED_BINDING_BYTES: nat := 256
  const MAX_STORED_TYPE_BYTES: nat := 32
  const MAX_STORED_USER_AGENT_BYTES: nat := 512

  const TEXT := "text"
  const CLICK := "click"
  const SLIDER := "slider"

  datatype Challenge = Challenge(
    id: string,
    kind: string,
    answer: string,
    createdAt: Time,
    expiresAt: Time,
    ip: string,
    userAgent: string,
    suspicion: int)

  datatype Entry = Entry(challenge: Challenge, binding: string, failedAttempts: nat)

  type Successes = seq<Event<string, Time>>

  function BoundedClone(value: string, limit: nat): (r: string)
    ensures r <= value && (|value| <= limit ==> r == value) && (|value| > limit ==> |r| == limit)
  {
    if |value| > limit then value[..limit] else value
  }

  /** Whether an answer solves a challenge: case and outer white space are ignored for words, and a
      type that is none of the three known ones is never solved. */
  predicate Correct(c: Challenge, answer: string) {
    if c.kind == TEXT then
      EqualFold(TrimSpace(answer), TrimSpace(c.answer))
    else
      (c.kind == CLICK || c.kind == SLIDER) && answer == c.answer
  }

  ghost function Expiry(challenges: map<string, Entry>): map<string, Time> {
    map id | id in challenges :: challenges[id].challenge.expiresAt
  }

  function Unexpired(challenges: map<string, Entry>, now: Time): map<string, Entry> {
    map id | id in challenges && now < challenges[id].challenge.expiresAt :: challenges[id]
  }

  // ----- what the store should remember of its verifications

  /** The meaning of being verified at time t: the binding's latest success is younger than ttl, and
      fewer than max distinct other bindings have succeeded since. */
  ghost predicate Remembered(h: Successes, binding: string, ttl: Time, max: nat, t: Time) {
    && Latest(h, binding).Some?
    && t < Latest(h, binding).value + ttl
    && |OthersSince(h, binding)| < max
  }

  /** Every remembered expiry is that of the binding's latest success. */
  ghost predicate Dated(h: Successes, verified: map<string, Time>, ttl: Time, clock: Time) {
    forall b :: b in verified ==> Latest(h, b) == Some(verified[b] - ttl) && verified[b] <= clock + ttl
  }

  /** Behind each binding in the list stand exactly those that have succeeded since. */
  ghost predicate Ranked(h: Successes, order: seq<string>, keys: set<string>)
    decreases |order|
  {
    if order == [] then
      keys == {}
    else
      && order[0] in keys
      && OthersSince(h, order[0]) == keys - {order[0]}
      && Ranked(h, order[1..], keys - {order[0]})
  }

  /** Whoever is not remembered has expired or has been overtaken. */
  ghost predicate Forgotten(h: Successes, keys: set<string>, ttl: Time, max: nat, clock: Time) {
    forall b :: b !in keys && Latest(h, b).Some? ==> Latest(h, b).value + ttl <= clock || |OthersSince(h, b)| >= max
  }

  /** How the verified map and list stand for the history h up to time clock. */
  ghost predicate Tracks(h: Successes, order: seq<string>, verified: map<string, Time>, ttl: Time, max: nat, clock: Time) {
    && Ordered(order, verified)
    && |verified| <= max
    && Dated(h, verified, ttl, clock)
    && Ranked(h, order, verified.Keys)
    && Forgotten(h, verified.Keys, ttl, max, clock)
  }

  lemma {:induction false} RankedBound(h: Successes, order: seq<string>, keys: set<string>, b: string)
    requires Ranked(h, order, keys) && b in keys
    ensures |OthersSince(h, b)| < |keys|
    decreases |order|
  {
    if order[0] == b {
      assert |keys - {b}| == |keys| - 1;
    } else {
      RankedBound(h, order[1..], keys - {order[0]}, b);
    }
  }

  /** A tracking store answers with the meaning of the history. */
  lemma LookupIsMeaning(h: Successes, order: seq<string>, verified: map<string, Time>, ttl: Time, max: nat, clock: Time, b: string, t: Time)
    requires Tracks(h, order, verified, ttl, max, clock)
    ensures b in verified && t < verified[b] ==> Remembered(h, b, ttl, max, t)
    ensures clock <= t ==> (b in verified && t < verified[b] <==> Remembered(h, b, ttl, max, t))
    ensures Remembered(h, b, ttl, max, clock) ==> b in verified && clock < verified[b]
  {
    if b in verified {
      RankedBound(h, order, verified.Keys, b);
    }
  }

  lemma TracksOrdered(h: Successes, order: seq<string>, verified: map<string, Time>, ttl: Time, max: nat, clock: Time)
    requires Tracks(h, order, verified, ttl, max, clock)
    ensures Ordered(order, verified)
  {
  }

  /** Time passing makes nothing wrong. */
  lemma TracksLater(h: Successes, order: seq<string>, verified: map<string, Time>, ttl: Time, max: nat, clock: Time, now: Time)
    requires Tracks(h, order, verified, ttl, max, clock) && clock <= now
    ensures Tracks(h, order, verified, ttl, max, now)
  {
  }

  /** Forgetting an expired front changes no answer from now on. */
  lemma PopTracks(h: Successes, order: seq<string>, verified: map<string, Time>, ttl: Time, max: nat, clock: Time)
    requires Tracks(h, order, verified, ttl, max, clock) && order != [] && verified[order[0]] <= clock
    ensures Tracks(h, order[1..], verified - {order[0]}, ttl, max, clock)
  {
    var rest := verified - {order[0]};
    assert rest.Keys == verified.Keys - {order[0]};
    assert |rest| <= |verified| by { assert |rest.Keys| <= |verified.Keys|; }
  }

  lemma TracksFacts(h: Successes, order: seq<string>, verified: map<string, Time>, ttl: Time, max: nat, clock: Time)
    requires Tracks(h, order, verified, ttl, max, clock)
    ensures forall x :: x in verified ==> verified[x] <= clock + ttl
  {
  }

  /** A success by a binding that is already in the list moves it to the back. */
  lemma RefreshTracks(h: Successes, order: seq<string>, verified: map<string, Time>, ttl: Time, max: nat, clock: Time, b: string)
    requires Tracks(h, order, verified, ttl, max, clock) && b in verified
    ensures Tracks(h + [Event(b, clock)], Without(order, b) + [b], verified[b := clock + ttl], ttl, max, clock)
  {
    hide Ordered, Dated, Ranked, Forgotten;
    var verified' := verified[b := clock + ttl];
    TracksFacts(h, order, verified, ttl, max, clock);
    assert verified' == (verified - {b})[b := clock + ttl];
    assert verified'.Keys == verified.Keys == verified.Keys + {b};
    assert |verified'| == |verified'.Keys| == |verified|;
    RemoveKeepsOrder(order, verified, b);
    AppendKeepsOrder(Without(order, b), verified - {b}, b, clock + ttl);
    RankedRefresh(h, order, verified.Keys, b, clock);
    DatedSuccess(h, verified, verified', ttl, clock, b);
    ForgottenSuccess(h, verified.Keys, ttl, max, clock, b);
  }

  lemma {:induction false} RankedRefresh(h: Successes, order: seq<string>, keys: set<string>, b: string, clock: Time)
    requires Ranked(h, order, keys) && b in keys
    ensures Ranked(h + [Event(b, clock)], Without(order, b) + [b], keys)
    decreases |order|
  {
    var f := order[0];
    if f == b {
      RankedAppend(h, order[1..], keys - {b}, b, clock);
      assert keys - {b} + {b} == keys;
    } else {
      RankedRefresh(h, order[1..], keys - {f}, b, clock);
      Extend(h, Event(b, clock), f);
      assert keys - {f} + {b} == keys - {f};
      assert (Without(order, b) + [b])[1..] == Without(order[1..], b) + [b];
    }
  }

  lemma {:induction false} RankedAppend(h: Successes, order: seq<string>, keys: set<string>, b: string, clock: Time)
    requires Ranked(h, order, keys) && b !in keys
    ensures Ranked(h + [Event(b, clock)], order + [b], keys + {b})
    decreases |order|
  {
    if order == [] {
      Extend(h, Event(b, clock), b);
      assert order + [b] == [b] && [b][1..] == [];
      assert keys + {b} - {b} == {};
    } else {
      var f := order[0];
      RankedAppend(h, order[1..], keys - {f}, b, clock);
      Extend(h, Event(b, clock), f);
      assert keys + {b} - {f} == keys - {f} + {b};
      assert (order + [b])[1..] == order[1..] + [b];
    }
  }

  lemma DatedSuccess(h: Successes, verified: map<string, Time>, verified': map<string, Time>, ttl: Time, clock: Time, b: string)
    requires Dated(h, verified, ttl, clock)
    requires b in verified' && verified'[b] == clock + ttl
    requires forall x :: x in verified' && x != b ==> x in verified && verified'[x] == verified[x]
    ensures Dated(h + [Event(b, clock)], verified', ttl, clock)
  {
    forall x | x in verified'
      ensures Latest(h + [Event(b, clock)], x) == Some(verified'[x] - ttl)
    {
      Extend(h, Event(b, clock), x);
    }
  }

  lemma ForgottenSuccess(h: Successes, keys: set<string>, ttl: Time, max: nat, clock: Time, b: string)
    requires Forgotten(h, keys, ttl, max, clock)
    ensures Forgotten(h + [Event(b, clock)], keys + {b}, ttl, max, clock)
  {
    forall x | x != b
      ensures Latest(h + [Event(b, clock)], x) == Latest(h, x)
      ensures |OthersSince(h + [Event(b, clock)], x)| >= |OthersSince(h, x)|
    {
      Extend(h, Event(b, clock), x);
      GrowingSet(OthersSince(h, x), b);
    }
  }

  lemma GrowingSet(s: set<string>, x: string)
    ensures |s + {x}| >= |s|
  {
    if x in s { assert s + {x} == s; }
  }

  /** While a new binding b is about to enter at time clock: everything but the last conjunct speaks
      of the history without it. */
  ghost predicate Entering(h: Successes, order: seq<string>, verified: map<string, Time>, ttl: Time, max: nat, clock: Time, b: string) {
    && Ordered(order, verified) && b !in verified
    && |verified| <= max
    && Dated(h, verified, ttl, clock)
    && Ranked(h, order, verified.Keys)
    && Forgotten(h + [Event(b, clock)], verified.Keys + {b}, ttl, max, clock)
  }

  lemma BeginEntering(h: Successes, order: seq<string>, verified: map<string, Time>, ttl: Time, max: nat, clock: Time, b: string)
    requires Tracks(h, order, verified, ttl, max, clock) && b !in verified
    ensures Entering(h, order, verified, ttl, max, clock, b)
  {
    ForgottenSuccess(h, verified.Keys, ttl, max, clock, b);
  }

  lemma EnteringSize(h: Successes, order: seq<string>, verified: map<string, Time>, ttl: Time, max: nat, clock: Time, b: string)
    requires Entering(h, order, verified, ttl, max, clock, b)
    ensures Ordered(order, verified) && |order| == |verified|
    ensures order != [] ==> order[0] in verified && Without(order, order[0]) == order[1..]
  {
    OrderedKeys(order, verified);
  }

  /** Evicting the front of a full list: max distinct others have then succeeded since, b among them. */
  lemma EvictEntering(h: Successes, order: seq<string>, verified: map<string, Time>, ttl: Time, max: nat, clock: Time, b: string)
    requires Entering(h, order, verified, ttl, max, clock, b) && |verified| >= max && order != []
    ensures Entering(h, order[1..], verified - {order[0]}, ttl, max, clock, b)
  {
    hide Forgotten, Latest, OthersSince;
    var f := order[0];
    var rest := verified - {f};
    assert rest.Keys == verified.Keys - {f};
    assert |rest| == |rest.Keys| == |verified.Keys| - 1;
    assert OthersSince(h, f) == rest.Keys;
    Extend(h, Event(b, clock), f);
    assert |rest.Keys + {b}| == |verified|;
    ForgetOvertaken(h + [Event(b, clock)], verified.Keys + {b}, f, ttl, max, clock);
    assert verified.Keys + {b} - {f} == rest.Keys + {b};
  }

  lemma ForgetOvertaken(h: Successes, keys: set<string>, b: string, ttl: Time, max: nat, clock: Time)
    requires Forgotten(h, keys, ttl, max, clock) && |OthersSince(h, b)| >= max
    ensures Forgotten(h, keys - {b}, ttl, max, clock)
  {
  }

  lemma FinishEntering(h: Successes, order: seq<string>, verified: map<string, Time>, ttl: Time, max: nat, clock: Time, b: string)
    requires Entering(h, order, verified, ttl, max, clock, b) && |verified| < max
    ensures Tracks(h + [Event(b, clock)], order + [b], verified[b := clock + ttl], ttl, max, clock)
  {
    var verified' := verified[b := clock + ttl];
    assert verified'.Keys == verified.Keys + {b};
    assert |verified'| == |verified'.Keys| == |verified| + 1;
    AppendKeepsOrder(order, verified, b, clock + ttl);
    RankedAppend(h, order, verified.Keys, b, clock);
    DatedSuccess(h, verified, verified', ttl, clock, b);
  }

  // ----- outstanding challenges

  /** Removing one challenge removes one expiry. */
  lemma ExpiryWithout(challenges: map<string, Entry>, id: string)
    ensures Expiry(challenges - {id}) == Expiry(challenges) - {id}
    ensures |Expiry(challenges)| == |challenges|
  {
    assert Expiry(challenges).Keys == challenges.Keys;
  }

  lemma ChallengesSize(challenges: map<string, Entry>, order: seq<string>)
    requires Ordered(order, Expiry(challenges))
    ensures |order| == |challenges| && Expiry(challenges).Keys == challenges.Keys
  {
    OrderedKeys(order, Expiry(challenges));
    assert challenges.Keys == Expiry(challenges).Keys;
    assert |challenges| == |challenges.Keys| == |Expiry(challenges).Keys| == |Expiry(challenges)|;
  }

  /** Without its front the list is that of the map without it. */
  lemma OldestGoes(challenges: map<string, Entry>, order: seq<string>)
    requires Ordered(order, Expiry(challenges)) && order != []
    ensures var oldest := order[0];
            && oldest in challenges && Without(order, oldest) == order[1..]
            && Ordered(order[1..], Expiry(challenges - {oldest}))
            && |challenges - {oldest}| == |challenges| - 1
  {
    var oldest := order[0];
    ExpiryWithout(challenges, oldest);
    assert (challenges - {oldest}).Keys == challenges.Keys - {oldest};
    assert |challenges - {oldest}| == |(challenges - {oldest}).Keys|;
  }

  lemma ExpiryOf(challenges: map<string, Entry>, id: string)
    ensures id in Expiry(challenges) <==> id in challenges
    ensures id in challenges ==> Expiry(challenges)[id] == challenges[id].challenge.expiresAt
  {
  }

  lemma ExpiryWith(challenges: map<string, Entry>, id: string, e: Entry)
    requires id !in challenges
    ensures id !in Expiry(challenges)
    ensures Expiry(challenges[id := e]) == Expiry(challenges)[id := e.challenge.expiresAt]
    ensures |challenges[id := e]| == |challenges| + 1
  {
    assert challenges[id := e].Keys == challenges.Keys + {id};
    assert |challenges[id := e]| == |challenges.Keys + {id}|;
  }

  lemma NoneExpired(challenges: map<string, Entry>, now: Time)
    requires Alive(Expiry(challenges), now) == Expiry(challenges)
    ensures Unexpired(challenges, now) == challenges
  {
    assert forall id :: id in challenges ==> id in Expiry(challenges);
    assert forall id :: id in challenges ==> id in Alive(Expiry(challenges), now);
  }

  /** The entries of m under the given keys. */
  function Restrict<V>(m: map<string, V>, keys: seq<string>): map<string, V> {
    map k | k in m && k in keys :: m[k]
  }

  lemma RestrictAll<V>(m: map<string, V>, expiry: map<string, Time>, order: seq<string>)
    requires Ordered(order, expiry) && expiry.Keys == m.Keys
    ensures Restrict(m, order) == m
  {
    OrderedKeys(order, expiry);
  }

  lemma RestrictTail<V>(m: map<string, V>, expiry: map<string, Time>, order: seq<string>)
    requires Ordered(order, expiry) && order != []
    ensures Restrict(m, order[1..]) == Restrict(m, order) - {order[0]}
  {
    OrderedKeys(order[1..], expiry - {order[0]});
    assert forall k :: k in order <==> k == order[0] || k in order[1..];
  }

  lemma RestrictExtra<V>(m: map<string, V>, order: seq<string>, k: string)
    requires k !in m
    ensures Restrict(m, order + [k]) == Restrict(m, order)
  {
  }

  /** The list of verified bindings after a success of b. */
  function MarkedOrder(order: seq<string>, b: string, known: bool, max: nat): seq<string>
    requires max > 0
  {
    (if known then Without(order, b) else LastN(order, max - 1)) + [b]
  }

  /** An id and a binding that belong to one of the outstanding challenges. */
  predicate Candidate(challenges: map<string, Entry>, id: string, binding: string) {
    |id| == CHALLENGE_ID_LENGTH && id in challenges && challenges[id].binding == binding
  }

  method CheckAnswer(c: Challenge, answer: string) returns (correct: bool)
    ensures correct == Correct(c, answer)
  {
    hide EqualFold, TrimSpace;
    correct := false;
    if c.kind == TEXT {
      correct := EqualFold(TrimSpace(answer), TrimSpace(c.answer));
    } else if c.kind == CLICK || c.kind == SLIDER {
      correct := answer == c.answer;
    }
  }

  /** The three known types fit into what is stored of a type, and nothing longer becomes one of them. */
  lemma StoredKind(kind: string)
    ensures var stored := BoundedClone(kind, MAX_STORED_TYPE_BYTES);
            (stored == TEXT <==> kind == TEXT) && (stored == CLICK <==> kind == CLICK) && (stored == SLIDER <==> kind == SLIDER)
  {
  }

  /** A wrong answer is counted, and the last one allowed takes the challenge away. */
  function AfterFailure(challenges: map<string, Entry>, id: string, maxFailedAttempts: nat): map<string, Entry>
    requires id in challenges
  {
    var e := challenges[id];
    if e.failedAttempts + 1 >= maxFailedAttempts then
      challenges - {id}
    else
      challenges[id := e.(failedAttempts := e.failedAttempts + 1)]
  }

  // ----- the store

  class Store {
    var challenges: map<string, Entry>
    var challengeOrder: seq<string>
    var verified: map<string, Time>
    var verifiedOrder: seq<string>

    const maxChallenges: nat
    const maxVerified: nat
    const maxFailedAttempts: nat
    const challengeTTL: Time
    const verificationTTL: Time

    // The latest clock reading, and every successful Verify with its time.
    ghost var clock: Time
    ghost var successes: Successes

    ghost predicate Valid()
      reads this
    {
      && ValidChallenges()
      && Tracks(successes, verifiedOrder, verified, verificationTTL, maxVerified, clock)
      && maxVerified > 0 && verificationTTL > 0
    }

    ghost predicate ValidChallenges()
      reads this`challenges, this`challengeOrder, this`clock
    {
      && maxChallenges > 0 && maxFailedAttempts > 0 && challengeTTL > 0
      && Ordered(challengeOrder, Expiry(challenges))
      && |challenges| <= maxChallenges
      && (forall id :: id in challenges ==> WellKept(id, challenges[id]))
    }

    ghost predicate WellKept(id: string, e: Entry)
      reads this`clock
    {
      && e.challenge.id == id && |id| == CHALLENGE_ID_LENGTH
      && e.challenge.expiresAt == e.challenge.createdAt + challengeTTL <= clock + challengeTTL
      && e.failedAttempts < maxFailedAttempts
    }

    constructor (maxChallenges: int, maxVerified: int, maxFailedAttempts: int, challengeTTL: Time, verificationTTL: Time, ghost start: Time)
      ensures Valid() && successes == [] && challenges == map[] && verified == map[] && clock == start
      ensures this.maxChallenges == if maxChallenges <= 0 then 4096 else maxChallenges
      ensures this.maxVerified == if maxVerified <= 0 then 4096 else maxVerified
      ensures this.maxFailedAttempts == if maxFailedAttempts <= 0 then 5 else maxFailedAttempts
      ensures this.challengeTTL == if challengeTTL <= 0 then 300_000_000_000 else challengeTTL
      ensures this.verificationTTL == if verificationTTL <= 0 then 3600_000_000_000 else verificationTTL
    {
      challenges, challengeOrder, verified, verifiedOrder := map[], [], map[], [];
      this.maxChallenges := if maxChallenges <= 0 then 4096 else maxChallenges;
      this.maxVerified := if maxVerified <= 0 then 4096 else maxVerified;
      this.maxFailedAttempts := if maxFailedAttempts <= 0 then 5 else maxFailedAttempts;
      this.challengeTTL := if challengeTTL <= 0 then 300_000_000_000 else challengeTTL;
      this.verificationTTL := if verificationTTL <= 0 then 3600_000_000_000 else verificationTTL;
      clock, successes := start, [];
    }

    ghost method ReadClock(now: Time)
      requires Valid() && clock <= now
      modifies this`clock
      ensures Valid() && clock == now
    {
      TracksLater(successes, verifiedOrder, verified, verificationTTL, maxVerified, clock, now);
      clock := now;
    }

    method RemoveChallenge(id: string)
      modifies this`challenges, this`challengeOrder
      ensures challenges == old(challenges) - {id}
      ensures challengeOrder == if id in old(challenges) then Without(old(challengeOrder), id) else old(challengeOrder)
    {
      if id in challenges {
        challenges := challenges - {id};
        challengeOrder := Without(challengeOrder, id);
      }
    }

    method RemoveVerified(binding: string)
      modifies this`verified, this`verifiedOrder
      ensures verified == old(verified) - {binding}
      ensures verifiedOrder == if binding in old(verified) then Without(old(verifiedOrder), binding) else old(verifiedOrder)
    {
      if binding in verified {
        verified := verified - {binding};
        verifiedOrder := Without(verifiedOrder, binding);
      }
    }

    /** Stopping at the first live challenge removes exactly the expired ones. */
    method CleanupChallenges(now: Time)
      requires Ordered(challengeOrder, Expiry(challenges))
      modifies this`challenges, this`challengeOrder
      ensures Ordered(challengeOrder, Expiry(challenges))
      ensures challenges == Unexpired(old(challenges), now)
      ensures challengeOrder == AliveOrder(old(challengeOrder), old(Expiry(challenges)), now)
    {
      while challengeOrder != []
        invariant Ordered(challengeOrder, Expiry(challenges))
        invariant Unexpired(challenges, now) == Unexpired(old(challenges), now)
        invariant AliveOrder(challengeOrder, Expiry(challenges), now) == AliveOrder(old(challengeOrder), old(Expiry(challenges)), now)
        decreases |challengeOrder|
      {
        var oldest := challengeOrder[0];
        if now < challenges[oldest].challenge.expiresAt {
          break;
        }
        PopExpired(challengeOrder, Expiry(challenges), now);
        ExpiryWithout(challenges, oldest);
        assert Unexpired(challenges - {oldest}, now) == Unexpired(challenges, now);
        RemoveChallenge(oldest);
      }
      LiveFront(challengeOrder, Expiry(challenges), now);
      NoneExpired(challenges, now);
    }

    /** The same for verifications; the time may be an old reading. */
    method CleanupVerified(now: Time)
      requires now <= clock
      requires Tracks(successes, verifiedOrder, verified, verificationTTL, maxVerified, clock)
      modifies this`verified, this`verifiedOrder
      ensures Tracks(successes, verifiedOrder, verified, verificationTTL, maxVerified, clock)
      ensures verified == Alive(old(verified), now)
      ensures verifiedOrder == AliveOrder(old(verifiedOrder), old(verified), now)
    {
      while verifiedOrder != []
        invariant Tracks(successes, verifiedOrder, verified, verificationTTL, maxVerified, clock)
        invariant Alive(verified, now) == Alive(old(verified), now)
        invariant AliveOrder(verifiedOrder, verified, now) == AliveOrder(old(verifiedOrder), old(verified), now)
        decreases |verifiedOrder|
      {
        var oldest := verifiedOrder[0];
        if now < verified[oldest] {
          break;
        }
        PopExpired(verifiedOrder, verified, now);
        PopTracks(successes, verifiedOrder, verified, verificationTTL, maxVerified, clock);
        RemoveVerified(oldest);
      }
      LiveFront(verifiedOrder, verified, now);
    }

    method CleanupExpired(now: Time)
      requires Valid() && now <= clock
      modifies this`challenges, this`challengeOrder, this`verified, this`verifiedOrder
      ensures Valid()
      ensures challenges == Unexpired(old(challenges), now)
      ensures challengeOrder == AliveOrder(old(challengeOrder), old(Expiry(challenges)), now)
      ensures verified == Alive(old(verified), now)
      ensures verifiedOrder == AliveOrder(old(verifiedOrder), old(verified), now)
    {
      CleanupChallenges(now);
      assert |challenges| <= |old(challenges)| by {
        assert challenges.Keys <= old(challenges).Keys;
        SubsetSize(challenges.Keys, old(challenges).Keys);
      }
      CleanupVerified(now);
    }
  
    /** Makes room for one more challenge by dropping the oldest. */
    method EvictChallenges()
      requires ValidChallenges()
      modifies this`challenges, this`challengeOrder
      ensures ValidChallenges() && |challenges| < maxChallenges
      ensures challengeOrder == LastN(old(challengeOrder), maxChallenges - 1)
      ensures challenges == Restrict(old(challenges), challengeOrder)
    {
      hide LastN, Restrict, Expiry;
      ChallengesSize(challenges, challengeOrder);
      RestrictAll(challenges, Expiry(challenges), challengeOrder);
      while |challenges| >= maxChallenges
        invariant ValidChallenges() && |challengeOrder| == |challenges|
        invariant LastN(challengeOrder, maxChallenges - 1) == LastN(old(challengeOrder), maxChallenges - 1)
        invariant challenges == Restrict(old(challenges), challengeOrder)
        decreases |challenges|
      {
        var e := Expiry(challenges);
        var oldest := challengeOrder[0];
        OldestGoes(challenges, challengeOrder);
        RestrictTail(old(challenges), e, challengeOrder);
        LastNTail(challengeOrder, maxChallenges - 1);
        RemoveChallenge(oldest);
      }
      LastNAll(challengeOrder, maxChallenges - 1);
    }

    /** The challenges that stay when one more is made: the newest of those that have not expired. */
    ghost function KeptOrder(now: Time): seq<string>
      requires Ordered(challengeOrder, Expiry(challenges)) && maxChallenges > 0
      reads this`challenges, this`challengeOrder
    {
      LastN(AliveOrder(challengeOrder, Expiry(challenges), now), maxChallenges - 1)
    }

    ghost function Kept(now: Time): map<string, Entry>
      requires Ordered(challengeOrder, Expiry(challenges)) && maxChallenges > 0
      reads this`challenges, this`challengeOrder
    {
      Restrict(Unexpired(challenges, now), KeptOrder(now))
    }

    /** A new challenge joins the unexpired ones, after the oldest of them made room for it. The ids
        are the candidates drawn one after the other. */
    method Create(ip: string, userAgent: string, suspicion: int, kind: string, answer: string, ids: seq<string>, now: Time)
      returns (c: Challenge)
      requires Valid() && clock <= now
      requires forall i :: 0 <= i < |ids| ==> |ids[i]| == CHALLENGE_ID_LENGTH
      requires exists i :: 0 <= i < |ids| && ids[i] !in Kept(now)
      modifies this
      ensures Valid() && clock == now && successes == old(successes)
      ensures c.id in ids && c.createdAt == now && c.expiresAt == now + challengeTTL
      ensures c.kind == BoundedClone(kind, 32) && c.suspicion == suspicion
      ensures c.ip == BoundedClone(ip, 256) && c.userAgent == BoundedClone(userAgent, 512)
      ensures c.answer == if kind == TEXT || kind == CLICK || kind == SLIDER then answer else ""
      ensures verified == Alive(old(verified), now)
      ensures verifiedOrder == AliveOrder(old(verifiedOrder), old(verified), now)
      ensures c.id !in old(Kept(now))
      ensures challengeOrder == old(KeptOrder(now)) + [c.id]
      ensures challenges == old(Kept(now))[c.id := Entry(c, ip, 0)]
    {
      hide Tracks, Ordered, AliveOrder, LastN;
      c := Challenge(
        ids[0],
        BoundedClone(kind, MAX_STORED_TYPE_BYTES),
        if kind == TEXT || kind == CLICK || kind == SLIDER then answer else "",
        now,
        now + challengeTTL,
        BoundedClone(ip, MAX_STORED_BINDING_BYTES),
        BoundedClone(userAgent, MAX_STORED_USER_AGENT_BYTES),
        suspicion);
      ReadClock(now);
      CleanupExpired(now);
      EvictChallenges();
      c := FreshId(c, ids);
      Insert(c, ip);
    }

    method FreshId(c: Challenge, ids: seq<string>) returns (r: Challenge)
      requires ids != [] && c.id == ids[0]
      requires exists i :: 0 <= i < |ids| && ids[i] !in challenges
      ensures r == c.(id := r.id) && r.id in ids && r.id !in challenges
    {
      r := c;
      var i := 0;
      while r.id in challenges
        invariant 0 <= i < |ids| && r == c.(id := ids[i])
        invariant exists j :: i <= j < |ids| && ids[j] !in challenges
        decreases |ids| - i
      {
        i := i + 1;
        r := c.(id := ids[i]);
      }
    }

    method Insert(c: Challenge, binding: string)
      requires ValidChallenges() && |challenges| < maxChallenges && c.id !in challenges
      requires |c.id| == CHALLENGE_ID_LENGTH && c.createdAt == clock && c.expiresAt == clock + challengeTTL
      modifies this`challenges, this`challengeOrder
      ensures ValidChallenges()
      ensures challengeOrder == old(challengeOrder) + [c.id]
      ensures challenges == old(challenges)[c.id := Entry(c, binding, 0)]
    {
      hide Expiry, Ordered;
      ExpiryWith(challenges, c.id, Entry(c, binding, 0));
      ghost var t := clock + challengeTTL;
      forall id | id in Expiry(challenges)
        ensures Expiry(challenges)[id] <= t
      {
        ExpiryOf(challenges, id);
        assert WellKept(id, challenges[id]);
      }
      AppendKeepsOrder(challengeOrder, Expiry(challenges), c.id, c.expiresAt);
      challengeOrder := challengeOrder + [c.id];
      challenges := challenges[c.id := Entry(c, binding, 0)];
    }

    /** An outstanding challenge is found exactly when it has not expired. */
    method Get(id: string, now: Time) returns (r: Option<Challenge>)
      requires Valid() && clock <= now
      modifies this
      ensures Valid() && clock == now && successes == old(successes)
      ensures r == if |id| == CHALLENGE_ID_LENGTH && id in old(challenges) && now < old(challenges)[id].challenge.expiresAt
                   then Some(old(challenges)[id].challenge) else None
      ensures challenges == if |id| == CHALLENGE_ID_LENGTH && id in old(challenges) && r.None? then Unexpired(old(challenges), now)
                            else old(challenges)
    {
      ReadClock(now);
      if |id| != CHALLENGE_ID_LENGTH {
        return None;
      }
      if id in challenges && now < challenges[id].challenge.expiresAt {
        return Some(challenges[id].challenge);
      }
      if id !in challenges {
        return None;
      }
      r := GetLocked(id, now);
    }

    /** The slow path of Get: other calls may have run since the clock was read. It does not look at
        the expiry again, and need not. */
    method GetLocked(id: string, now: Time) returns (r: Option<Challenge>)
      requires Valid() && now <= clock
      modifies this`challenges, this`challengeOrder, this`verified, this`verifiedOrder
      ensures Valid()
      ensures r.Some? ==> r.value.id == id && now < r.value.expiresAt
      ensures r.Some? <==> id in Unexpired(old(challenges), now)
      ensures r.Some? ==> r.value == old(challenges)[id].challenge
      ensures challenges == Unexpired(old(challenges), now)
    {
      CleanupExpired(now);
      r := if id in challenges then Some(challenges[id].challenge) else None;
    }

    method RecordFailure(id: string)
      requires ValidChallenges() && id in challenges
      modifies this`challenges, this`challengeOrder
      ensures ValidChallenges()
      ensures challenges == AfterFailure(old(challenges), id, maxFailedAttempts)
      ensures challengeOrder == if id in challenges then old(challengeOrder) else Without(old(challengeOrder), id)
    {
      var e := challenges[id];
      var counted := challenges[id := e.(failedAttempts := e.failedAttempts + 1)];
      assert Expiry(counted) == Expiry(challenges);
      assert counted.Keys == challenges.Keys;
      assert |counted| == |counted.Keys| == |challenges|;
      if e.failedAttempts + 1 >= maxFailedAttempts {
        DropChallenge(id);
      } else {
        challenges := counted;
      }
    }

    method DropChallenge(id: string)
      requires ValidChallenges() && id in challenges
      modifies this`challenges, this`challengeOrder
      ensures ValidChallenges()
      ensures challenges == old(challenges) - {id} && challengeOrder == Without(old(challengeOrder), id)
    {
      RemoveKeepsOrder(challengeOrder, Expiry(challenges), id);
      ExpiryWithout(challenges, id);
      SubsetSize((challenges - {id}).Keys, challenges.Keys);
      RemoveChallenge(id);
    }

    /** Makes room for the binding that is about to enter. */
    method EvictVerified(ghost binding: string)
      requires maxVerified > 0
      requires Entering(successes, verifiedOrder, verified, verificationTTL, maxVerified, clock, binding)
      modifies this`verified, this`verifiedOrder
      ensures Entering(successes, verifiedOrder, verified, verificationTTL, maxVerified, clock, binding)
      ensures |verified| < maxVerified
      ensures verifiedOrder == LastN(old(verifiedOrder), maxVerified - 1)
      ensures verified == Restrict(old(verified), verifiedOrder)
    {
      hide Entering, Ordered, LastN, Without, Restrict;
      EnteringSize(successes, verifiedOrder, verified, verificationTTL, maxVerified, clock, binding);
      RestrictAll(verified, verified, verifiedOrder);
      while |verified| >= maxVerified
        invariant Entering(successes, verifiedOrder, verified, verificationTTL, maxVerified, clock, binding)
        invariant LastN(verifiedOrder, maxVerified - 1) == LastN(old(verifiedOrder), maxVerified - 1)
        invariant verified == Restrict(old(verified), verifiedOrder)
        decreases |verified|
      {
        EnteringSize(successes, verifiedOrder, verified, verificationTTL, maxVerified, clock, binding);
        var oldest := verifiedOrder[0];
        LastNTail(verifiedOrder, maxVerified - 1);
        EvictEntering(successes, verifiedOrder, verified, verificationTTL, maxVerified, clock, binding);
        RestrictTail(old(verified), verified, verifiedOrder);
        ghost var tail := verifiedOrder[1..];
        assert LastN(tail, maxVerified - 1) == LastN(old(verifiedOrder), maxVerified - 1);
        RemoveVerified(oldest);
        assert verifiedOrder == tail;
      }
      EnteringSize(successes, verifiedOrder, verified, verificationTTL, maxVerified, clock, binding);
      LastNAll(verifiedOrder, maxVerified - 1);
    }

    method MarkVerified(binding: string, now: Time)
      requires maxVerified > 0 && now == clock
      requires Tracks(successes, verifiedOrder, verified, verificationTTL, maxVerified, clock)
      modifies this`verified, this`verifiedOrder, this`successes
      ensures Tracks(successes, verifiedOrder, verified, verificationTTL, maxVerified, clock)
      ensures successes == old(successes) + [Event(binding, clock)]
      ensures verifiedOrder == MarkedOrder(old(verifiedOrder), binding, binding in old(verified), maxVerified)
      ensures verified == Restrict(old(verified), verifiedOrder)[binding := clock + verificationTTL]
    {
      hide Tracks, Entering, Ordered, LastN, Without, Restrict;
      var expiresAt := now + verificationTTL;
      if binding in verified {
        RefreshTracks(successes, verifiedOrder, verified, verificationTTL, maxVerified, clock, binding);
        verified := verified[binding := expiresAt];
        verifiedOrder := Without(verifiedOrder, binding) + [binding];
        TracksOrdered(old(successes) + [Event(binding, clock)], verifiedOrder, verified, verificationTTL, maxVerified, clock);
        RestrictAll(old(verified), verified, verifiedOrder);
      } else {
        BeginEntering(successes, verifiedOrder, verified, verificationTTL, maxVerified, clock, binding);
        EvictVerified(binding);
        FinishEntering(successes, verifiedOrder, verified, verificationTTL, maxVerified, clock, binding);
        RestrictExtra(old(verified), verifiedOrder, binding);
        verifiedOrder := verifiedOrder + [binding];
        verified := verified[binding := expiresAt];
      }
      successes := successes + [Event(binding, clock)];
    }

    /** An answer is accepted once, only from the binding the challenge was made for, and only within
        its budget of wrong answers; nobody else's answers count against that budget. */
    method Verify(id: string, answer: string, ip: string, now: Time) returns (ok: bool)
      requires Valid() && clock <= now
      modifies this
      ensures Valid() && clock == now
      ensures var live := Unexpired(old(challenges), now);
              && ok == (Candidate(live, id, ip) && |answer| <= MAX_ANSWER_BYTES && Correct(live[id].challenge, answer))
              && challenges == (if !Candidate(live, id, ip) then live
                                else if ok then live - {id}
                                else AfterFailure(live, id, maxFailedAttempts))
      ensures successes == if ok then old(successes) + [Event(ip, now)] else old(successes)
      ensures var live, order := Alive(old(verified), now), AliveOrder(old(verifiedOrder), old(verified), now);
              if ok then
                && verifiedOrder == MarkedOrder(order, ip, ip in live, maxVerified)
                && verified == Restrict(live, verifiedOrder)[ip := now + verificationTTL]
              else
                verified == live && verifiedOrder == order
    {
      hide Tracks, Ordered, AliveOrder, Without, Restrict, AfterFailure, MarkedOrder, Correct, ValidChallenges, Expiry, Alive, Unexpired;
      ReadClock(now);
      CleanupExpired(now);
      ok := VerifyLive(id, answer, ip, now);
    }

    /** Verify once nothing expired is left. */
    method VerifyLive(id: string, answer: string, ip: string, now: Time) returns (ok: bool)
      requires Valid() && clock == now
      modifies this`challenges, this`challengeOrder, this`verified, this`verifiedOrder, this`successes
      ensures Valid()
      ensures ok == (Candidate(old(challenges), id, ip) && |answer| <= MAX_ANSWER_BYTES && Correct(old(challenges)[id].challenge, answer))
      ensures challenges == (if !Candidate(old(challenges), id, ip) then old(challenges)
                             else if ok then old(challenges) - {id}
                             else AfterFailure(old(challenges), id, maxFailedAttempts))
      ensures successes == if ok then old(successes) + [Event(ip, now)] else old(successes)
      ensures ok ==> verifiedOrder == MarkedOrder(old(verifiedOrder), ip, ip in old(verified), maxVerified)
      ensures ok ==> verified == Restrict(old(verified), verifiedOrder)[ip := now + verificationTTL]
      ensures !ok ==> verified == old(verified) && verifiedOrder == old(verifiedOrder)
    {
      hide Tracks, Ordered, AliveOrder, Without, Restrict, AfterFailure, MarkedOrder, Correct, ValidChallenges;
      if |id| != CHALLENGE_ID_LENGTH {
        return false;
      }
      if id !in challenges || challenges[id].binding != ip {
        return false;
      }
      if |answer| > MAX_ANSWER_BYTES {
        RecordFailure(id);
        return false;
      }
      var correct := CheckAnswer(challenges[id].challenge, answer);
      if !correct {
        RecordFailure(id);
        return false;
      }
      DropChallenge(id);
      MarkVerified(ip, now);
      return true;
    }

    /** From end to end: who answers the challenge that was made for it, in time and as was asked, is verified. */
    method CreateAndSolve(ip: string, userAgent: string, suspicion: int, kind: string, answer: string, ids: seq<string>, now: Time, given: string, t: Time)
      returns (c: Challenge, ok: bool)
      requires Valid() && clock <= now <= t < now + challengeTTL
      requires forall i :: 0 <= i < |ids| ==> |ids[i]| == CHALLENGE_ID_LENGTH
      requires exists i :: 0 <= i < |ids| && ids[i] !in Kept(now)
      modifies this
      ensures Valid() && clock == t
      ensures ok <==>
                && |given| <= 256
                && (kind == "text" || kind == "click" || kind == "slider")
                && (given == answer || (kind == "text" && ToLower(TrimSpace(given)) == ToLower(TrimSpace(answer))))
      ensures ok ==> successes == old(successes) + [Event(ip, t)] && ip in verified && verified[ip] == t + verificationTTL
      ensures !ok ==> successes == old(successes)
    {
      hide Tracks, Ordered, AliveOrder, LastN, Without, Restrict, Kept, KeptOrder, AfterFailure, TrimSpace, ToLower, MarkedOrder;
      c := Create(ip, userAgent, suspicion, kind, answer, ids, now);
      StoredKind(kind);
      ok := Verify(c.id, given, ip, t);
    }

    /** The trace meaning: the answer is what the history of successes says. */
    method IsVerified(ip: string, now: Time) returns (ok: bool)
      requires Valid() && clock <= now
      modifies this
      ensures Valid() && clock == now && successes == old(successes)
      ensures ok <==> Remembered(successes, ip, verificationTTL, maxVerified, now)
    {
      ReadClock(now);
      LookupIsMeaning(successes, verifiedOrder, verified, verificationTTL, maxVerified, clock, ip, now);
      if ip in verified && now < verified[ip] {
        return true;
      }
      if ip !in verified {
        return false;
      }
      ok := IsVerifiedLocked(ip, now);
    }

    /** The slow path of IsVerified: other calls may have run since the clock was read. The answer lies
        between the meaning at that reading and the meaning now. */
    method IsVerifiedLocked(ip: string, now: Time) returns (ok: bool)
      requires Valid() && now <= clock
      modifies this`challenges, this`challengeOrder, this`verified, this`verifiedOrder
      ensures Valid()
      ensures ok ==> Remembered(successes, ip, verificationTTL, maxVerified, now)
      ensures Remembered(successes, ip, verificationTTL, maxVerified, clock) ==> ok
    {
      CleanupExpired(now);
      LookupIsMeaning(successes, verifiedOrder, verified, verificationTTL, maxVerified, clock, ip, now);
      ok := ip in verified && now < verified[ip];
    }
  }
}
