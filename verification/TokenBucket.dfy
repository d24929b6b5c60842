/** The token bucket shared by the rate limiter and the bandwidth limiter of internal/traffic. Times
    are whole nanoseconds, tokens are exact reals. */
module TokenBucket {

  type Time = int

  const SECOND: Time := 1_000_000_000
  const MINUTE: Time := 60 * SECOND

  datatype Bucket = Bucket(tokens: real, last: Time)

  function Seconds(t: Time): real {
    t as real / 1000000000.0
  }

  /** What a bucket earns from time a to time b. */
  function Gain(rate: real, a: Time, b: Time): real {
    rate * Seconds(b - a)
  }

  lemma GainAdds(rate: real, a: Time, b: Time, c: Time)
    ensures Gain(rate, a, c) == Gain(rate, a, b) + Gain(rate, b, c)
  {
    var x, y := Seconds(b - a), Seconds(c - b);
    assert Seconds(c - a) == x + y;
    assert rate * (x + y) == rate * x + rate * y;
  }

  lemma GainGrows(rate: real, a: Time, b: Time, c: Time)
    requires rate >= 0.0 && b <= c
    ensures Gain(rate, a, b) <= Gain(rate, a, c)
  {
    GainAdds(rate, a, b, c);
    var s := Seconds(c - b);
    assert s >= 0.0;
    assert rate * s >= 0.0;
  }

  /** Time gone by fills the bucket, never above the burst; a reading from the past does nothing. */
  function Refill(rate: real, burst: real, b: Bucket, now: Time): Bucket {
    if now > b.last then
      var filled := b.tokens + Gain(rate, b.last, now);
      Bucket(if filled > burst then burst else filled, now)
    else
      b
  }

  function Grants(rate: real, burst: real, b: Bucket, amount: real, now: Time): bool {
    Refill(rate, burst, b, now).tokens >= amount
  }

  function Spend(rate: real, burst: real, b: Bucket, amount: real, now: Time): Bucket {
    var full := Refill(rate, burst, b, now);
    if full.tokens >= amount then full.(tokens := full.tokens - amount) else full
  }

  /** It does not matter how often the bucket is looked at on the way. */
  lemma RefillInBetween(rate: real, burst: real, b: Bucket, t: Time, now: Time)
    requires rate >= 0.0 && Sound(burst, b) && b.last <= t <= now
    ensures Refill(rate, burst, Refill(rate, burst, b, t), now) == Refill(rate, burst, b, now)
  {
    GainAdds(rate, b.last, t, now);
    GainGrows(rate, b.last, b.last, t);
    GainGrows(rate, t, t, now);
    NoGain(rate, b.last);
    NoGain(rate, t);
  }

  lemma NoGain(rate: real, t: Time)
    ensures Gain(rate, t, t) == 0.0
  {
  }

  /** No more than the burst is ever granted at once, and up to that exactly what is there and what was earned. */
  lemma GrantsExactly(rate: real, burst: real, b: Bucket, amount: real, now: Time)
    requires rate >= 0.0 && Sound(burst, b)
    ensures Grants(rate, burst, b, amount, now) <==>
            amount <= burst && amount <= b.tokens + if now > b.last then Gain(rate, b.last, now) else 0.0
  {
  }

  ghost predicate Sound(burst: real, b: Bucket) {
    0.0 <= b.tokens <= burst
  }

  /** One attempt: what is left and what was granted is at most what was there and what was earned. */
  lemma SpendConserves(rate: real, burst: real, b: Bucket, amount: real, now: Time)
    requires rate >= 0.0 && amount >= 0.0 && Sound(burst, b)
    ensures var c := Spend(rate, burst, b, amount, now);
            var granted := if Grants(rate, burst, b, amount, now) then amount else 0.0;
            && Sound(burst, c)
            && b.last <= c.last && (c.last == b.last || c.last == now)
            && c.tokens + granted <= b.tokens + Gain(rate, b.last, c.last)
  {
    if now > b.last {
      GainGrows(rate, b.last, b.last, now);
    }
  }

  datatype Attempt = Attempt(amount: real, now: Time)

  function Run(rate: real, burst: real, b: Bucket, attempts: seq<Attempt>): Bucket
    decreases |attempts|
  {
    if attempts == [] then b else Run(rate, burst, Spend(rate, burst, b, attempts[0].amount, attempts[0].now), attempts[1..])
  }

  function Granted(rate: real, burst: real, b: Bucket, attempts: seq<Attempt>): real
    decreases |attempts|
  {
    if attempts == [] then
      0.0
    else
      var a := attempts[0];
      (if Grants(rate, burst, b, a.amount, a.now) then a.amount else 0.0) +
      Granted(rate, burst, Spend(rate, burst, b, a.amount, a.now), attempts[1..])
  }

  /** The window bound: between any two states of one bucket, whatever clock readings came between, no
      more is granted than the burst and the rate over the time the bucket has seen. */
  lemma {:induction false} WindowBound(rate: real, burst: real, b: Bucket, attempts: seq<Attempt>)
    requires rate >= 0.0 && Sound(burst, b) && forall i :: 0 <= i < |attempts| ==> attempts[i].amount >= 0.0
    ensures var end := Run(rate, burst, b, attempts);
            && Sound(burst, end) && b.last <= end.last
            && end.tokens + Granted(rate, burst, b, attempts) <= b.tokens + Gain(rate, b.last, end.last)
            && Granted(rate, burst, b, attempts) <= burst + Gain(rate, b.last, end.last)
    decreases |attempts|
  {
    if attempts != [] {
      var a := attempts[0];
      var c := Spend(rate, burst, b, a.amount, a.now);
      SpendConserves(rate, burst, b, a.amount, a.now);
      WindowBound(rate, burst, c, attempts[1..]);
      GainAdds(rate, b.last, c.last, Run(rate, burst, b, attempts).last);
    }
  }

  /** A bucket does not see past the latest reading it was given. */
  lemma {:induction false} RunLast(rate: real, burst: real, b: Bucket, attempts: seq<Attempt>, latest: Time)
    requires b.last <= latest && forall i :: 0 <= i < |attempts| ==> attempts[i].now <= latest
    ensures Run(rate, burst, b, attempts).last <= latest
    decreases |attempts|
  {
    if attempts != [] {
      RunLast(rate, burst, Spend(rate, burst, b, attempts[0].amount, attempts[0].now), attempts[1..], latest);
    }
  }
}
