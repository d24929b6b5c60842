/** The response cache of internal/cache/cache.go: least recently used, with expiry, and the reader
    that captures a body on its way to the client. */
module Cache {
  import opened Strings
  import opened History
  import opened KeyList

  type Time = int

  const SECOND: Time := 1_000_000_000

  type Header = map<string, seq<string>>

  datatype Entry = Entry(status: int, header: Header, body: string, expires: Time)

  /** What the cache was given to keep, for how long, and when. */
  datatype Given = Given(status: int, header: Header, body: string, lifetime: Time, at: Time)

  /** What touches a key: a set that is accepted, or a hit. */
  type Touches = seq<Event<string, Option<Given>>>

  const HOP_BY_HOP: seq<string> := [
    "connection", "keep-alive", "proxy-authenticate", "proxy-authorization", "te", "trailers", "transfer-encoding", "upgrade"]

  predicate IsHopByHop(name: string) {
    ToLower(name) in HOP_BY_HOP
  }

  /** A copy that leaves out what concerns one connection only. */
  function CloneHeader(h: Header): Header {
    map name | name in h && !IsHopByHop(name) :: h[name]
  }

  function NewEntry(ttl: Time, g: Given): Entry {
    Entry(g.status, CloneHeader(g.header), g.body, g.at + if g.lifetime > ttl then ttl else g.lifetime)
  }

  // ----- what the cache should hold

  /** Neither the lifetime it was given nor that of the store is over. */
  ghost predicate LiveAt(ttl: Time, g: Given, t: Time) {
    t <= g.at + g.lifetime && t <= g.at + ttl
  }

  /** An entry says what was given, but for the fields that concern one connection only. */
  ghost predicate Tells(e: Entry, g: Given) {
    && e.status == g.status && e.body == g.body
    && (forall name :: name in e.header <==> name in g.header && ToLower(name) !in HOP_BY_HOP)
    && (forall name :: name in e.header ==> e.header[name] == g.header[name])
  }

  lemma NewEntryMeaning(ttl: Time, g: Given, t: Time)
    ensures Tells(NewEntry(ttl, g), g)
    ensures t <= NewEntry(ttl, g).expires <==> LiveAt(ttl, g, t)
  {
    hide ToLower;
  }

  /** What was given in the latest accepted set of k. */
  ghost function LatestSet(h: Touches, k: string): Option<Given> {
    if h == [] then
      None
    else
      var last := h[|h| - 1];
      if last.key == k && last.value.Some? then last.value else LatestSet(h[..|h| - 1], k)
  }

  lemma ExtendSet(h: Touches, e: Event<string, Option<Given>>, k: string)
    ensures LatestSet(h + [e], k) == if e.key == k && e.value.Some? then e.value else LatestSet(h, k)
  {
    assert (h + [e])[..|h|] == h;
  }

  /** A key that must be in the cache at time t: its latest set has not expired, and fewer than max
      distinct other keys have been set or hit since it was last set or hit itself. */
  ghost predicate Retained(h: Touches, k: string, ttl: Time, max: nat, t: Time) {
    LatestSet(h, k).Some? && LiveAt(ttl, LatestSet(h, k).value, t) && |OthersSince(h, k)| < max
  }

  /** The keys in front of each key of the list, and those in ahead, have been touched since it was. */
  ghost predicate Ranked(h: Touches, keys: seq<string>, ahead: set<string>)
    decreases |keys|
  {
    keys == [] || (ahead <= OthersSince(h, keys[0]) && Ranked(h, keys[1..], ahead + {keys[0]}))
  }

  ghost predicate Latest(h: Touches, items: map<string, Entry>, ttl: Time) {
    forall k :: k in items ==> LatestSet(h, k).Some? && items[k] == NewEntry(ttl, LatestSet(h, k).value)
  }

  /** Whatever was set and is not there has expired or has been overtaken. */
  ghost predicate Gone(h: Touches, items: map<string, Entry>, ttl: Time, max: nat, clock: Time) {
    forall k :: k !in items && LatestSet(h, k).Some? ==> !LiveAt(ttl, LatestSet(h, k).value, clock) || |OthersSince(h, k)| >= max
  }

  ghost predicate Tracks(h: Touches, keys: seq<string>, items: map<string, Entry>, ttl: Time, max: nat, clock: Time) {
    && Lists(keys, items.Keys)
    && Ranked(h, keys, {})
    && Latest(h, items, ttl)
    && Gone(h, items, ttl, max, clock)
  }

  /** A tracking cache answers with the meaning of the history. */
  lemma LookupIsMeaning(h: Touches, keys: seq<string>, items: map<string, Entry>, ttl: Time, max: nat, clock: Time, k: string)
    requires Tracks(h, keys, items, ttl, max, clock)
    ensures k in items ==>
              && LatestSet(h, k).Some? && Tells(items[k], LatestSet(h, k).value)
              && (clock <= items[k].expires <==> LiveAt(ttl, LatestSet(h, k).value, clock))
    ensures Retained(h, k, ttl, max, clock) ==> k in items && clock <= items[k].expires
  {
    hide NewEntry, Lists, Ranked, LiveAt, Tells;
    if LatestSet(h, k).Some? {
      NewEntryMeaning(ttl, LatestSet(h, k).value, clock);
    }
  }

  lemma TracksLater(h: Touches, keys: seq<string>, items: map<string, Entry>, ttl: Time, max: nat, clock: Time, now: Time)
    requires Tracks(h, keys, items, ttl, max, clock) && clock <= now
    ensures Tracks(h, keys, items, ttl, max, now)
  {
  }

  lemma {:induction false} RankedAfterTouch(h: Touches, keys: seq<string>, ahead: set<string>, smaller: set<string>, e: Event<string, Option<Given>>)
    requires Ranked(h, keys, ahead) && smaller <= ahead + {e.key}
    ensures Ranked(h + [e], Drop(keys, {e.key}), smaller)
    decreases |keys|
  {
    if keys != [] {
      var x := keys[0];
      if x == e.key {
        RankedAfterTouch(h, keys[1..], ahead + {x}, smaller, e);
      } else {
        Extend(h, e, x);
        RankedAfterTouch(h, keys[1..], ahead + {x}, smaller + {x}, e);
        assert Drop(keys, {e.key})[1..] == Drop(keys[1..], {e.key});
      }
    }
  }

  lemma {:induction false} RankedWithout(h: Touches, keys: seq<string>, ahead: set<string>, smaller: set<string>, k: string)
    requires Ranked(h, keys, ahead) && smaller <= ahead
    ensures Ranked(h, Drop(keys, {k}), smaller)
    decreases |keys|
  {
    if keys != [] {
      var x := keys[0];
      if x == k {
        RankedWithout(h, keys[1..], ahead + {x}, smaller, k);
      } else {
        RankedWithout(h, keys[1..], ahead + {x}, smaller + {x}, k);
        assert Drop(keys, {k})[1..] == Drop(keys[1..], {k});
      }
    }
  }

  lemma {:induction false} LastIsOvertaken(h: Touches, keys: seq<string>, all: set<string>, ahead: set<string>)
    requires keys != [] && Lists(keys, all) && Ranked(h, keys, ahead)
    ensures var last := keys[|keys| - 1];
            ahead + (all - {last}) <= OthersSince(h, last)
    decreases |keys|
  {
    var x := keys[0];
    if |keys| == 1 {
      assert keys[1..] == [] && all - {x} == {};
    } else {
      LastIsOvertaken(h, keys[1..], all - {x}, ahead + {x});
      ListsMembers(keys[1..], all - {x});
      var last := keys[|keys| - 1];
      assert last == keys[1..][|keys[1..]| - 1];
      assert ahead + (all - {last}) <= ahead + {x} + (all - {x} - {last});
    }
  }

  lemma GoneAfterTouch(h: Touches, items: map<string, Entry>, ttl: Time, max: nat, clock: Time, e: Event<string, Option<Given>>, items': map<string, Entry>)
    requires Gone(h, items, ttl, max, clock) && e.key in items' && items.Keys <= items'.Keys
    ensures Gone(h + [e], items', ttl, max, clock)
  {
    forall k | k !in items' && LatestSet(h + [e], k).Some?
      ensures !LiveAt(ttl, LatestSet(h + [e], k).value, clock) || |OthersSince(h + [e], k)| >= max
    {
      ExtendSet(h, e, k);
      Extend(h, e, k);
      SubsetSize(OthersSince(h, k), OthersSince(h + [e], k));
    }
  }

  /** A key that is touched comes to the front. */
  lemma TouchTracks(h: Touches, keys: seq<string>, items: map<string, Entry>, ttl: Time, max: nat, clock: Time, e: Event<string, Option<Given>>)
    requires Tracks(h, keys, items, ttl, max, clock) && (e.value.None? ==> e.key in items)
    ensures var items' := if e.value.Some? then items[e.key := NewEntry(ttl, e.value.value)] else items;
            Tracks(h + [e], [e.key] + Drop(keys, {e.key}), items', ttl, max, clock)
  {
    var items' := if e.value.Some? then items[e.key := NewEntry(ttl, e.value.value)] else items;
    var rest := Drop(keys, {e.key});
    DropLists(keys, items.Keys, {e.key});
    PrependLists(rest, items.Keys - {e.key}, e.key);
    assert items.Keys - {e.key} + {e.key} == items'.Keys;
    RankedAfterTouch(h, keys, {}, {e.key}, e);
    Extend(h, e, e.key);
    assert ([e.key] + rest)[1..] == rest && {} + {e.key} == {e.key};
    GoneAfterTouch(h, items, ttl, max, clock, e, items');
    LatestAfterTouch(h, items, ttl, e);
  }

  lemma LatestAfterTouch(h: Touches, items: map<string, Entry>, ttl: Time, e: Event<string, Option<Given>>)
    requires Latest(h, items, ttl)
    ensures Latest(h + [e], if e.value.Some? then items[e.key := NewEntry(ttl, e.value.value)] else items, ttl)
  {
    hide NewEntry;
    forall k
      ensures LatestSet(h + [e], k) == if e.key == k && e.value.Some? then e.value else LatestSet(h, k)
    {
      ExtendSet(h, e, k);
    }
  }

  /** A key may go once it has expired, or once max distinct others are ahead of it. */
  lemma RemoveTracks(h: Touches, keys: seq<string>, items: map<string, Entry>, ttl: Time, max: nat, clock: Time, k: string)
    requires Tracks(h, keys, items, ttl, max, clock) && k in items
    requires items[k].expires < clock || |OthersSince(h, k)| >= max
    ensures Tracks(h, Drop(keys, {k}), items - {k}, ttl, max, clock)
  {
    DropLists(keys, items.Keys, {k});
    assert (items - {k}).Keys == items.Keys - {k};
    RankedWithout(h, keys, {}, {}, k);
  }

  // ----- the store

  class Store {
    const ttl: Time
    const maxEntries: nat
    const maxBodyBytes: nat
    var items: map<string, Entry>
    var ll: seq<string>

    ghost var clock: Time
    ghost var touches: Touches

    ghost predicate Valid()
      reads this
    {
      && ttl > 0 && maxEntries > 0 && maxBodyBytes > 0
      && |items| <= maxEntries
      && Tracks(touches, ll, items, ttl, maxEntries, clock)
    }

    constructor (ttl: Time, maxEntries: int, maxBodyBytes: int, ghost start: Time)
      ensures Valid() && touches == [] && items == map[] && clock == start
      ensures this.ttl == if ttl <= 0 then 60 * SECOND else ttl
      ensures this.maxEntries == if maxEntries <= 0 then 1024 else maxEntries
      ensures this.maxBodyBytes == if maxBodyBytes <= 0 then 0x10_0000 else maxBodyBytes
    {
      this.ttl := if ttl <= 0 then 60 * SECOND else ttl;
      this.maxEntries := if maxEntries <= 0 then 1024 else maxEntries;
      this.maxBodyBytes := if maxBodyBytes <= 0 then 0x10_0000 else maxBodyBytes;
      items, ll, clock, touches := map[], [], start, [];
    }

    method RemoveElement(key: string)
      modifies this`items, this`ll
      ensures items == old(items) - {key} && ll == Drop(old(ll), {key})
    {
      ll := Drop(ll, {key});
      items := items - {key};
    }

    /** A hit is the latest accepted set of the key and has not expired; a key that must be retained is
        always hit. */
    method Get(key: string, now: Time) returns (r: Option<Entry>)
      requires Valid() && clock <= now
      modifies this
      ensures Valid() && clock == now
      ensures r.Some? ==>
                var g := LatestSet(old(touches), key);
                g.Some? && LiveAt(ttl, g.value, now) && Tells(r.value, g.value)
      ensures Retained(old(touches), key, ttl, maxEntries, now) ==> r.Some?
      ensures touches == if r.Some? then old(touches) + [Event(key, None)] else old(touches)
      ensures items == if r.None? then old(items) - {key} else old(items)
    {
      hide Tracks, Retained, Drop, LatestSet;
      TracksLater(touches, ll, items, ttl, maxEntries, clock, now);
      clock := now;
      LookupIsMeaning(touches, ll, items, ttl, maxEntries, clock, key);
      if key !in items {
        assert items - {key} == items;
        return None;
      }
      var e := items[key];
      if now > e.expires {
        RemoveTracks(touches, ll, items, ttl, maxEntries, clock, key);
        SubsetSize((items - {key}).Keys, items.Keys);
        RemoveElement(key);
        return None;
      }
      TouchTracks(touches, ll, items, ttl, maxEntries, clock, Event(key, None));
      ll := [key] + Drop(ll, {key});
      touches := touches + [Event(key, None)];
      r := Some(e);
    }

    /** Bodies that are too large and lifetimes that are not positive are not accepted. */
    method SetWithTTL(key: string, status: int, header: Header, body: string, lifetime: Time, now: Time)
      requires Valid() && clock <= now
      modifies this
      ensures Valid() && clock == now
      ensures if |body| <= maxBodyBytes && lifetime > 0
              then touches == old(touches) + [Event(key, Some(Given(status, header, body, lifetime, now)))]
                   && key in items
              else touches == old(touches) && items == old(items) && ll == old(ll)
    {
      hide Lists, Ranked, Drop;
      clock := now;
      if |body| > maxBodyBytes {
        return;
      }
      if lifetime <= 0 {
        return;
      }
      var given := Given(status, header, body, lifetime, now);
      var entry := NewEntry(ttl, given);
      TouchTracks(touches, ll, items, ttl, maxEntries, clock, Event(key, Some(given)));
      SetSize(items, key, entry);
      touches := touches + [Event(key, Some(given))];
      if key in items {
        ll := [key] + Drop(ll, {key});
        items := items[key := entry];
        return;
      }
      DropAbsent(ll, items.Keys, key);
      ll := [key] + ll;
      items := items[key := entry];
      RemoveExcess(key);
    }

    /** The last key goes when there is one too many; it is not the one just set. */
    method RemoveExcess(key: string)
      requires ttl > 0 && maxEntries > 0 && maxBodyBytes > 0
      requires Tracks(touches, ll, items, ttl, maxEntries, clock) && |items| <= maxEntries + 1
      requires ll != [] && ll[0] == key
      modifies this`items, this`ll
      ensures Valid() && key in items && items[key] == old(items)[key]
    {
      hide Ranked, Drop, Gone, Lists;
      ListsMembers(ll, items.Keys);
      assert |ll| == |items|;
      if |ll| > maxEntries {
        var last := ll[|ll| - 1];
        LastIsOvertaken(touches, ll, items.Keys, {});
        SubsetSize(items.Keys - {last}, OthersSince(touches, last));
        LastIsNotFirst(ll, items.Keys);
        RemoveTracks(touches, ll, items, ttl, maxEntries, clock, last);
        assert (items - {last}).Keys == items.Keys - {last};
        assert |items - {last}| == |(items - {last}).Keys|;
        RemoveElement(last);
      }
    }
  }

  lemma SetSize(items: map<string, Entry>, key: string, entry: Entry)
    ensures |items[key := entry]| == if key in items then |items| else |items| + 1
  {
    assert items[key := entry].Keys == items.Keys + {key};
    assert |items[key := entry]| == |items[key := entry].Keys|;
  }

  lemma {:induction false} DropAbsent(keys: seq<string>, all: set<string>, k: string)
    requires Lists(keys, all) && k !in all
    ensures Drop(keys, {k}) == keys
    decreases |keys|
  {
    if keys != [] {
      DropAbsent(keys[1..], all - {keys[0]}, k);
    }
  }

  lemma LastIsNotFirst(keys: seq<string>, all: set<string>)
    requires Lists(keys, all) && |keys| > 1
    ensures keys[|keys| - 1] != keys[0]
  {
    ListsMembers(keys[1..], all - {keys[0]});
    assert keys[|keys| - 1] == keys[1..][|keys[1..]| - 1];
  }

  // ----- capturing a body

  class Capture {
    const maxBytes: nat
    var buf: string
    var overflow: bool
    var completed: bool

    // The bodies handed to onComplete, in order.
    var delivered: seq<string>

    // What the upstream has yielded so far, and what it had yielded at its end.
    ghost var yielded: string
    ghost var ended: Option<string>

    ghost predicate Valid()
      reads this
    {
      && (overflow <==> |yielded| > maxBytes)
      && buf == (if overflow then "" else yielded)
      && (completed <==> ended.Some?)
      && delivered == if ended.Some? && |ended.value| <= maxBytes then [ended.value] else []
    }

    constructor (maxBytes: nat)
      requires maxBytes > 0
      ensures Valid() && yielded == "" && ended == None && delivered == [] && this.maxBytes == maxBytes
    {
      this.maxBytes := maxBytes;
      buf, overflow, completed, delivered := "", false, false, [];
      yielded, ended := "", None;
    }

    /** One read, which may yield bytes, report the end, or both. However the stream is cut into reads,
        what is delivered is all of it, once, or nothing. */
    method Read(p: string, eof: bool)
      requires Valid()
      modifies this
      ensures Valid() && yielded == old(yielded) + p
      ensures ended == if old(ended).None? && eof then Some(yielded) else old(ended)
    {
      yielded := yielded + p;
      if |p| > 0 && !overflow {
        if |buf| + |p| <= maxBytes {
          buf := buf + p;
        } else {
          overflow := true;
          buf := "";
        }
      }
      if eof && !completed {
        completed := true;
        ended := Some(yielded);
        if !overflow {
          delivered := delivered + [buf];
        }
      }
    }
  }
}
