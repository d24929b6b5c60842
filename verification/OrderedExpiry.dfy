/** A map from keys to expiry times together with a list of its keys, oldest expiry at the front:
    the shape of both halves of the challenge store. */
module OrderedExpiry {

  type Time = int

  /** The list holds each key of the map exactly once, in the order of expiry. */
  ghost predicate Ordered<K(!new)>(order: seq<K>, expiry: map<K, Time>)
    decreases |order|
  {
    if order == [] then
      expiry == map[]
    else
      && order[0] in expiry
      && (forall k :: k in expiry ==> expiry[order[0]] <= expiry[k])
      && Ordered(order[1..], expiry - {order[0]})
  }

  function Alive<K>(expiry: map<K, Time>, now: Time): map<K, Time> {
    map k | k in expiry && now < expiry[k] :: expiry[k]
  }

  /** The keys that have not expired, in their old order. */
  ghost function AliveOrder<K(!new)>(order: seq<K>, expiry: map<K, Time>, now: Time): (r: seq<K>)
    requires Ordered(order, expiry)
    decreases |order|
  {
    if order == [] then
      []
    else
      (if now < expiry[order[0]] then [order[0]] else []) + AliveOrder(order[1..], expiry - {order[0]}, now)
  }

  /** The list without one of its keys. */
  function Without<K(==)>(order: seq<K>, k: K): seq<K> {
    if order == [] then
      []
    else if order[0] == k then
      order[1..]
    else
      [order[0]] + Without(order[1..], k)
  }

  /** The last n elements, or all of them. */
  function LastN<K>(s: seq<K>, n: nat): seq<K> {
    if |s| <= n then s else s[|s| - n..]
  }

  lemma LastNTail<K>(s: seq<K>, n: nat)
    requires |s| > n
    ensures LastN(s[1..], n) == LastN(s, n)
  {
  }

  lemma LastNAll<K>(s: seq<K>, n: nat)
    requires |s| <= n
    ensures LastN(s, n) == s
  {
  }

  lemma {:induction false} OrderedKeys<K(!new)>(order: seq<K>, expiry: map<K, Time>)
    requires Ordered(order, expiry)
    ensures |order| == |expiry|
    ensures forall k :: k in order <==> k in expiry
    decreases |order|
  {
    if order != [] {
      var rest := expiry - {order[0]};
      OrderedKeys(order[1..], rest);
      assert expiry.Keys == rest.Keys + {order[0]};
    }
  }

  /** What the definition is meant to say: no key twice, the keys of the map, sorted. */
  lemma {:induction false} OrderedMeaning<K(!new)>(order: seq<K>, expiry: map<K, Time>)
    requires Ordered(order, expiry)
    ensures |order| == |expiry|
    ensures forall k :: k in order <==> k in expiry
    ensures forall i, j :: 0 <= i < j < |order| ==> order[i] != order[j] && expiry[order[i]] <= expiry[order[j]]
    decreases |order|
  {
    OrderedKeys(order, expiry);
    if order != [] {
      var tail, rest := order[1..], expiry - {order[0]};
      OrderedMeaning(tail, rest);
      forall i, j | 0 <= i < j < |order|
        ensures order[i] != order[j] && expiry[order[i]] <= expiry[order[j]]
      {
        assert order[j] == tail[j - 1] && tail[j - 1] in rest;
        assert i > 0 ==> order[i] == tail[i - 1];
      }
    }
  }

  lemma {:induction false} RemoveKeepsOrder<K(!new)>(order: seq<K>, expiry: map<K, Time>, k: K)
    requires Ordered(order, expiry) && k in expiry
    ensures Ordered(Without(order, k), expiry - {k})
    decreases |order|
  {
    var f := order[0];
    if f != k {
      RemoveKeepsOrder(order[1..], expiry - {f}, k);
      assert expiry - {f} - {k} == expiry - {k} - {f};
      assert Without(order, k)[1..] == Without(order[1..], k);
    }
  }

  lemma {:induction false} AppendKeepsOrder<K(!new)>(order: seq<K>, expiry: map<K, Time>, k: K, t: Time)
    requires Ordered(order, expiry) && k !in expiry
    requires forall x :: x in expiry ==> expiry[x] <= t
    ensures Ordered(order + [k], expiry[k := t])
    decreases |order|
  {
    if order == [] {
      assert order + [k] == [k] && expiry[k := t] - {k} == map[];
      assert [k][1..] == [];
    } else {
      var f := order[0];
      AppendKeepsOrder(order[1..], expiry - {f}, k, t);
      assert (order + [k])[1..] == order[1..] + [k];
      assert expiry[k := t] - {f} == (expiry - {f})[k := t];
    }
  }

  /** Because the list is sorted, an expired front may go without anything else changing. */
  lemma PopExpired<K(!new)>(order: seq<K>, expiry: map<K, Time>, now: Time)
    requires Ordered(order, expiry) && order != [] && expiry[order[0]] <= now
    ensures AliveOrder(order, expiry, now) == AliveOrder(order[1..], expiry - {order[0]}, now)
    ensures Alive(expiry, now) == Alive(expiry - {order[0]}, now)
  {
  }

  /** And a live front means that nothing at all has expired. */
  lemma {:induction false} LiveFront<K(!new)>(order: seq<K>, expiry: map<K, Time>, now: Time)
    requires Ordered(order, expiry) && (order != [] ==> now < expiry[order[0]])
    ensures AliveOrder(order, expiry, now) == order
    ensures Alive(expiry, now) == expiry
    decreases |order|
  {
    if order != [] {
      var rest := expiry - {order[0]};
      if order[1..] != [] {
        assert order[1..][0] in rest;
      }
      LiveFront(order[1..], rest, now);
    }
  }
}
