/** A list of keys that stands beside a map: the recency list of the rate limiter and of the cache. */
module KeyList {

  /** The list holds each key exactly once. */
  ghost predicate Lists(keys: seq<string>, all: set<string>)
    decreases |keys|
  {
    if keys == [] then all == {} else keys[0] in all && Lists(keys[1..], all - {keys[0]})
  }

  function Drop(keys: seq<string>, gone: set<string>): seq<string> {
    if keys == [] then []
    else if keys[0] in gone then Drop(keys[1..], gone)
    else [keys[0]] + Drop(keys[1..], gone)
  }

  lemma {:induction false} DropLists(keys: seq<string>, all: set<string>, gone: set<string>)
    requires Lists(keys, all)
    ensures Lists(Drop(keys, gone), all - gone)
    decreases |keys|
  {
    if keys == [] {
      assert all - gone == {};
    } else {
      var k := keys[0];
      DropLists(keys[1..], all - {k}, gone);
      if k in gone {
        assert all - {k} - gone == all - gone;
      } else {
        assert all - {k} - gone == all - gone - {k};
        assert Drop(keys, gone)[1..] == Drop(keys[1..], gone);
      }
    }
  }

  lemma {:induction false} DropTwice(keys: seq<string>, a: set<string>, b: set<string>)
    ensures Drop(Drop(keys, a), b) == Drop(keys, a + b)
    decreases |keys|
  {
    if keys != [] {
      DropTwice(keys[1..], a, b);
      if keys[0] !in a {
        assert Drop(keys, a)[1..] == Drop(keys[1..], a);
      }
    }
  }

  lemma {:induction false} ListsMembers(keys: seq<string>, all: set<string>)
    requires Lists(keys, all)
    ensures |keys| == |all| && forall k :: k in keys <==> k in all
    decreases |keys|
  {
    if keys != [] {
      ListsMembers(keys[1..], all - {keys[0]});
      assert forall k :: k in keys <==> k == keys[0] || k in keys[1..];
    }
  }

  lemma PrependLists(keys: seq<string>, all: set<string>, k: string)
    requires Lists(keys, all) && k !in all
    ensures Lists([k] + keys, all + {k})
  {
    assert all + {k} - {k} == all && ([k] + keys)[1..] == keys;
  }

  lemma SubsetSize(a: set<string>, b: set<string>)
    requires a <= b
    ensures |a| <= |b|
  {
    assert b == a + (b - a);
  }

  lemma {:induction false} DropNothing(keys: seq<string>)
    ensures Drop(keys, {}) == keys
    decreases |keys|
  {
    if keys != [] {
      DropNothing(keys[1..]);
    }
  }
}
