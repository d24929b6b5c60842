/** What has happened to a keyed store so far, oldest event first. */
module History {
  import opened Strings

  datatype Event<+K, +V> = Event(key: K, value: V)

  /** The value of the latest event on k. */
  ghost function Latest<K, V>(h: seq<Event<K, V>>, k: K): Option<V> {
    if h == [] then
      None
    else
      var last := h[|h| - 1];
      if last.key == k then Some(last.value) else Latest(h[..|h| - 1], k)
  }

  /** The distinct other keys with an event later than the latest one on k. */
  ghost function OthersSince<K, V>(h: seq<Event<K, V>>, k: K): set<K> {
    if h == [] then
      {}
    else
      var last := h[|h| - 1];
      if last.key == k then {} else OthersSince(h[..|h| - 1], k) + {last.key}
  }

  lemma Extend<K, V>(h: seq<Event<K, V>>, e: Event<K, V>, k: K)
    ensures Latest(h + [e], k) == if e.key == k then Some(e.value) else Latest(h, k)
    ensures OthersSince(h + [e], k) == if e.key == k then {} else OthersSince(h, k) + {e.key}
  {
    assert (h + [e])[..|h|] == h;
  }
}
