/** How a configuration travels: pollDomains of main.go gives it a version, the Manager of
    internal/streaming/manager.go publishes it, subscribers receive it over channels that may drop it,
    and applyConfigUpdates of main.go writes it to the database. */
module ConfigStream {
  import opened Strings
  import opened Reconcile

  const CHANNEL_CAPACITY: nat := 10

  datatype Versioned = Versioned(version: int, config: Snapshot)

  /** A message whose data may not decode. */
  datatype Message = Message(kind: string, data: Option<Snapshot>, version: int)

  const EMPTY := Snapshot(map[], false, map[], false, 0)

  // ----- orderings

  /** Strictly increasing versions. */
  ghost predicate Increasing(s: seq<Versioned>) {
    |s| <= 1 || (Increasing(s[..|s| - 1]) && s[|s| - 2].version < s[|s| - 1].version)
  }

  ghost predicate IsSubsequence(s: seq<Versioned>, of: seq<Versioned>)
    decreases |of|
  {
    if s == [] then true
    else if of == [] then false
    else
      var last, init := of[|of| - 1], of[..|of| - 1];
      IsSubsequence(s, init) || (s[|s| - 1] == last && IsSubsequence(s[..|s| - 1], init))
  }

  lemma {:induction false} IncreasingMeaning(s: seq<Versioned>, i: nat, j: nat)
    requires Increasing(s) && i < j < |s|
    ensures s[i].version < s[j].version
  {
    if j < |s| - 1 {
      IncreasingMeaning(s[..|s| - 1], i, j);
    } else if i < |s| - 2 {
      IncreasingMeaning(s[..|s| - 1], i, j - 1);
    }
  }

  lemma IncreasingAppend(s: seq<Versioned>, v: Versioned)
    requires Increasing(s) && (s != [] ==> s[|s| - 1].version < v.version)
    ensures Increasing(s + [v])
  {
    assert (s + [v])[..|s + [v]| - 1] == s;
  }

  lemma SubsequenceSkip(s: seq<Versioned>, of: seq<Versioned>, v: Versioned)
    requires IsSubsequence(s, of)
    ensures IsSubsequence(s, of + [v])
  {
    assert (of + [v])[..|of + [v]| - 1] == of;
  }

  lemma SubsequenceTake(s: seq<Versioned>, of: seq<Versioned>, v: Versioned)
    requires IsSubsequence(s, of)
    ensures IsSubsequence(s + [v], of + [v])
  {
    assert (of + [v])[..|of + [v]| - 1] == of && (s + [v])[..|s + [v]| - 1] == s;
  }

  lemma {:induction false} SubsequenceMember(s: seq<Versioned>, of: seq<Versioned>, i: nat)
    requires IsSubsequence(s, of) && i < |s|
    ensures s[i] in of
    decreases |of|
  {
    var last, init := of[|of| - 1], of[..|of| - 1];
    if IsSubsequence(s, init) {
      SubsequenceMember(s, init, i);
    } else if i < |s| - 1 {
      SubsequenceMember(s[..|s| - 1], init, i);
    }
  }

  // ----- the manager

  /** What is known of one subscriber: the position in the history of what it was given first, everything
      ever sent to it, and how much of that it has taken from the channel. */
  datatype Listener = Listener(start: nat, sent: seq<Versioned>, taken: nat)

  function Buffered(l: Listener): seq<Versioned>
    requires l.taken <= |l.sent|
  {
    l.sent[l.taken..]
  }

  /** The promise to a subscriber, given everything that has been published. */
  ghost predicate WellServed(l: Listener, published: seq<Versioned>) {
    && l.start < |published|
    && l.sent != [] && l.sent[0] == published[l.start]
    && l.taken <= |l.sent| && |l.sent| - l.taken <= CHANNEL_CAPACITY
    && IsSubsequence(l.sent, published[l.start..])
    && Increasing(l.sent)
    && l.sent[|l.sent| - 1].version <= published[|published| - 1].version
  }

  /** A send that does not wait: it happens if there is room. */
  function Offer(l: Listener, v: Versioned): Listener
    requires l.taken <= |l.sent|
  {
    if |Buffered(l)| < CHANNEL_CAPACITY then l.(sent := l.sent + [v]) else l
  }

  lemma OfferFillsChannel(l: Listener, v: Versioned)
    requires l.taken <= |l.sent|
    ensures Offer(l, v).taken == l.taken <= |Offer(l, v).sent|
    ensures Buffered(Offer(l, v)) == if |Buffered(l)| < CHANNEL_CAPACITY then Buffered(l) + [v] else Buffered(l)
  {
  }

  lemma OfferServes(l: Listener, published: seq<Versioned>, v: Versioned)
    requires WellServed(l, published) && published[|published| - 1].version < v.version
    ensures WellServed(Offer(l, v), published + [v])
  {
    hide IsSubsequence, Increasing;
    var old' := published[l.start..];
    assert (published + [v])[l.start..] == old' + [v];
    SubsequenceSkip(l.sent, old', v);
    SubsequenceTake(l.sent, old', v);
    IncreasingAppend(l.sent, v);
  }

  lemma NewListenerServed(published: seq<Versioned>)
    requires published != []
    ensures WellServed(Listener(|published| - 1, [published[|published| - 1]], 0), published)
  {
    var last := published[|published| - 1];
    assert published[|published| - 1..] == [last];
    assert [last][..0] == [];
  }

  /** Each channel holds what was sent to its subscriber and not yet taken. */
  ghost predicate ChannelsHold(channels: seq<seq<Versioned>>, listeners: seq<Listener>) {
    |channels| == |listeners|
    && forall i :: 0 <= i < |listeners| ==> listeners[i].taken <= |listeners[i].sent| && channels[i] == Buffered(listeners[i])
  }

  class Manager {
    var current: Versioned
    var version: int
    var channels: seq<seq<Versioned>>
    var disk: Option<Versioned>

    // Everything that has been current, oldest first, and who was sent what.
    ghost var published: seq<Versioned>
    ghost var listeners: seq<Listener>

    ghost predicate Valid()
      reads this
    {
      && current.version == version
      && published != [] && published[|published| - 1] == current
      && Increasing(published)
      && (forall i :: 0 <= i < |listeners| ==> WellServed(listeners[i], published))
      && ChannelsHold(channels, listeners)
    }

    /** A new manager starts from the recovery file, if that can be read. */
    constructor (recovered: Option<Versioned>)
      ensures Valid() && listeners == [] && disk == recovered
      ensures current == if recovered.Some? then recovered.value else Versioned(0, EMPTY)
      ensures published == [current]
    {
      current := if recovered.Some? then recovered.value else Versioned(0, EMPTY);
      version := if recovered.Some? then recovered.value.version else 0;
      channels := [];
      listeners := [];
      disk := recovered;
      published := [if recovered.Some? then recovered.value else Versioned(0, EMPTY)];
    }

    method Subscribe() returns (i: nat)
      requires Valid()
      modifies this`channels, this`listeners
      ensures Valid()
      ensures i == |old(listeners)|
      ensures listeners == old(listeners) + [Listener(|published| - 1, [current], 0)]
    {
      NewListenerServed(published);
      i := |channels|;
      channels := channels + [[current]];
      listeners := listeners + [Listener(|published| - 1, [current], 0)];
    }

    /** Taking the next snapshot from a channel that has one: a published one, newer than any before it. */
    method Receive(i: nat) returns (v: Versioned)
      requires Valid() && i < |listeners| && listeners[i].taken < |listeners[i].sent|
      modifies this`channels, this`listeners
      ensures Valid()
      ensures var l := old(listeners)[i];
              && v == l.sent[l.taken] && v in published[l.start..]
              && forall j :: 0 <= j < l.taken ==> l.sent[j].version < v.version
      ensures listeners == old(listeners)[i := old(listeners)[i].(taken := old(listeners)[i].taken + 1)]
    {
      hide IsSubsequence, Increasing;
      ghost var l := listeners[i];
      v := channels[i][0];
      SubsequenceMember(l.sent, published[l.start..], l.taken);
      forall j | 0 <= j < l.taken
        ensures l.sent[j].version < v.version
      {
        IncreasingMeaning(l.sent, j, l.taken);
      }
      assert WellServed(l.(taken := l.taken + 1), published);
      channels := channels[i := channels[i][1..]];
      listeners := listeners[i := listeners[i].(taken := listeners[i].taken + 1)];
    }

    /** A stale message is dropped without an error; one that is not understood changes nothing; any
        other becomes the current snapshot and is offered to every subscriber. */
    method HandleMessage(msg: Message, diskFails: bool) returns (ok: bool)
      requires Valid()
      modifies this
      ensures Valid()
      ensures ok <==> msg.version <= old(version) || (msg.kind == "snapshot" && msg.data.Some?)
      ensures var accepted := msg.version > old(version) && msg.kind == "snapshot" && msg.data.Some?;
              if accepted then
                && current == Versioned(msg.version, msg.data.value)
                && published == old(published) + [current]
                && |listeners| == |old(listeners)|
                && (forall i :: 0 <= i < |listeners| ==> WellServed(old(listeners)[i], old(published)) && listeners[i] == Offer(old(listeners)[i], current))
                && disk == (if diskFails then old(disk) else Some(current))
              else
                current == old(current) && published == old(published) && listeners == old(listeners) && disk == old(disk)
    {
      if msg.version <= version {
        return true;
      }
      if msg.kind != "snapshot" {
        return false;
      }
      if msg.data.None? {
        return false;
      }
      IncreasingAppend(published, Versioned(msg.version, msg.data.value));
      ghost var before := published;
      current := Versioned(msg.version, msg.data.value);
      version := msg.version;
      published := published + [current];
      if !diskFails {
        disk := Some(current);
      }
      Broadcast(before);
      ok := true;
    }

    method Broadcast(ghost before: seq<Versioned>)
      requires before != [] && published == before + [current] && before[|before| - 1].version < current.version
      requires forall i :: 0 <= i < |listeners| ==> WellServed(listeners[i], before)
      requires ChannelsHold(channels, listeners)
      modifies this`channels, this`listeners
      ensures |listeners| == |old(listeners)|
      ensures forall i :: 0 <= i < |listeners| ==> WellServed(old(listeners)[i], before) && listeners[i] == Offer(old(listeners)[i], current)
      ensures forall i :: 0 <= i < |listeners| ==> WellServed(listeners[i], published)
      ensures ChannelsHold(channels, listeners)
    {
      hide IsSubsequence, Increasing, Offer, WellServed, Buffered;
      for n := 0 to |channels|
        invariant |channels| == |old(channels)| && ChannelsHold(channels, listeners)
        invariant |listeners| == |old(listeners)|
        invariant forall i :: 0 <= i < n ==> WellServed(listeners[i], published) && listeners[i] == Offer(old(listeners)[i], current)
        invariant forall i :: n <= i < |listeners| ==> listeners[i] == old(listeners)[i]
      {
        OfferServes(listeners[n], before, current);
        OfferFillsChannel(listeners[n], current);
        if |channels[n]| < CHANNEL_CAPACITY {
          channels := channels[n := channels[n] + [current]];
        }
        listeners := listeners[n := Offer(listeners[n], current)];
      }
    }
  }

  /** What a subscriber has received or will receive from its channel: versions strictly increase, from
      the snapshot that was current when it subscribed on, in the order of publication. */
  lemma SubscriberSeesProgress(l: Listener, published: seq<Versioned>, i: nat, j: nat)
    requires WellServed(l, published) && i < j < |l.sent|
    ensures l.sent[i].version < l.sent[j].version
    ensures published[l.start].version < l.sent[j].version <= published[|published| - 1].version
  {
    IncreasingMeaning(l.sent, i, j);
    IncreasingMeaning(l.sent, 0, j);
    if j < |l.sent| - 1 {
      IncreasingMeaning(l.sent, j, |l.sent| - 1);
    }
  }

  /** A channel may lose the newest snapshot, and does so exactly when it is full. */
  lemma NewestIsSentExactlyWhenThereIsRoom(l: Listener, published: seq<Versioned>, v: Versioned)
    requires WellServed(l, published) && published[|published| - 1].version < v.version
    ensures v in Offer(l, v).sent <==> |Buffered(l)| < CHANNEL_CAPACITY
  {
    if v in l.sent {
      var i :| 0 <= i < |l.sent| && l.sent[i] == v;
      if i < |l.sent| - 1 {
        IncreasingMeaning(l.sent, i, |l.sent| - 1);
      }
      assert false;
    }
  }

  // ----- the poller

  class Poller {
    const manager: Manager
    var digest: Option<Snapshot>
    var lastVersion: int

    ghost predicate Valid()
      reads this, manager
    {
      manager.Valid() && lastVersion == manager.version
    }

    constructor (manager: Manager)
      requires manager.Valid()
      ensures Valid() && this.manager == manager && digest == None
    {
      this.manager := manager;
      digest := None;
      lastVersion := manager.current.version;
    }

    /** One poll; response is nothing when the control plane could not be asked or understood. A changed
        configuration is never dropped as stale, and an unchanged one leaves the manager alone. */
    method Poll(response: Option<Snapshot>, clock: int, diskFails: bool) returns (changed: bool, ok: bool)
      requires Valid()
      modifies this, manager
      ensures Valid()
      ensures ok <==> response.Some?
      ensures changed <==> response.Some? && response != old(digest)
      ensures if changed then
                && manager.current.config == response.value && manager.version > old(manager.version)
                && manager.version == (if clock > old(manager.version) then clock else old(manager.version) + 1)
                && manager.published == old(manager.published) + [manager.current]
                && |manager.listeners| == |old(manager.listeners)|
                && (forall i :: 0 <= i < |manager.listeners| ==>
                      WellServed(old(manager.listeners)[i], old(manager.published)) && manager.listeners[i] == Offer(old(manager.listeners)[i], manager.current))
                && digest == response
              else
                && manager.current == old(manager.current) && manager.published == old(manager.published)
                && manager.listeners == old(manager.listeners) && manager.disk == old(manager.disk)
                && digest == old(digest)
    {
      if response.None? {
        return false, false;
      }
      if digest == response {
        return false, true;
      }
      var version := clock;
      if version <= lastVersion {
        version := lastVersion + 1;
      }
      var handled := manager.HandleMessage(Message("snapshot", response, version), diskFails);
      if !handled {
        return false, false;
      }
      digest := response;
      lastVersion := version;
      return true, true;
    }
  }

  // ----- merging with the local configuration

  function Merge(local: Option<Snapshot>, remote: Option<Snapshot>): Snapshot {
    var mine := if local.Some? then local.value else EMPTY;
    var theirs := if remote.Some? then remote.value else EMPTY;
    Snapshot(mine.routes + theirs.routes, ReconcilesRoutes(mine) || ReconcilesRoutes(theirs), theirs.rules, ReconcilesRules(theirs), theirs.others)
  }

  method CopyInto<V>(from: map<string, V>, into: map<string, V>) returns (r: map<string, V>)
    ensures r == into + from
    ensures into == map[] ==> r == from
  {
    r := into;
    var todo := from.Keys;
    while todo != {}
      invariant todo <= from.Keys
      invariant r == into + (from - todo)
      decreases todo
    {
      var key :| key in todo;
      ghost var before := todo;
      todo := todo - {key};
      assert from - todo == (from - before)[key := from[key]];
      r := r[key := from[key]];
    }
    assert from - {} == from;
  }

  method MergeConfigSnapshots(local: Option<Snapshot>, remote: Option<Snapshot>) returns (merged: Snapshot)
    ensures merged == Merge(local, remote)
  {
    hide ReconcilesRoutes, ReconcilesRules;
    NothingConfigured();
    merged := EMPTY;
    if local.Some? {
      var mine := CopyInto(local.value.routes, map[]);
      merged := Snapshot(mine, ReconcilesRoutes(local.value), map[], false, 0);
    }
    if remote.None? {
      NothingAdded(merged.routes);
      return;
    }
    var routes := CopyInto(remote.value.routes, merged.routes);
    var rules := CopyInto(remote.value.rules, map[]);
    merged := Snapshot(routes, merged.routesConfigured || ReconcilesRoutes(remote.value), rules, ReconcilesRules(remote.value), remote.value.others);
  }

  lemma NothingConfigured()
    ensures !ReconcilesRoutes(EMPTY) && !ReconcilesRules(EMPTY)
  {
  }

  lemma NothingAdded<V>(m: map<string, V>)
    ensures m + map[] == m
  {
  }

  /** The remote side wins where both name a route, and nothing either side names is lost. */
  lemma MergeMeaning(local: Snapshot, remote: Snapshot, name: string)
    ensures var m := Merge(Some(local), Some(remote));
            && (name in m.routes <==> name in local.routes || name in remote.routes)
            && (name in remote.routes ==> m.routes[name] == remote.routes[name])
            && (name in local.routes && name !in remote.routes ==> m.routes[name] == local.routes[name])
            && m.rules == remote.rules && m.others == remote.others
            && (m.routesConfigured <==> local.routesConfigured || local.routes != map[] || remote.routesConfigured || remote.routes != map[])
            && (m.rulesConfigured <==> remote.rulesConfigured || remote.rules != map[])
  {
    var m := Merge(Some(local), Some(remote));
    assert local.routes == map[] && remote.routes == map[] ==> m.routes == map[];
  }

  // ----- the subscriber

  /** How a snapshot that was committed has changed the tables. */
  ghost predicate Committed(o: Oracle, before: Tables, s: Snapshot, after: Tables) {
    && Sound(after) && AllWanted(o, s) && AllRules(o, s)
    && (if ReconcilesRoutes(s) then Reconciled(o, before, s, after) <==> Agreeing(o, s)
        else after == before.(rules := after.rules))
    && (if ReconcilesRules(s) then RulesReconciled(o, s, after.rules) else after.rules == before.rules)
  }

  lemma RulesDoNotMatter(o: Oracle, before: Tables, s: Snapshot, after: Tables, rules: map<string, RuleRow>)
    ensures Reconciled(o, before, s, after.(rules := rules)) <==> Reconciled(o, before, s, after)
  {
    hide Reconciled;
    var other := after.(rules := rules);
    if Reconciled(o, before, s, after) {
      SameButRules(o, before, s, after, other);
    }
    if Reconciled(o, before, s, other) {
      SameButRules(o, before, s, other, after);
    }
  }

  lemma SameButRules(o: Oracle, before: Tables, s: Snapshot, a: Tables, b: Tables)
    requires Reconciled(o, before, s, a) && b == a.(rules := b.rules)
    ensures Reconciled(o, before, s, b)
  {
    hide WantOf, IsWantedKey, Sound, Holds;
    assert Sound(b) by { SoundButRules(a, b); }
    forall name | name in s.routes
      ensures WantOf(o, name, s.routes[name]).Some? && Holds(b, WantOf(o, name, s.routes[name]).value)
    {
      HoldsButRules(a, b, WantOf(o, name, s.routes[name]).value);
    }
  }

  lemma SoundButRules(a: Tables, b: Tables)
    requires Sound(a) && b == a.(rules := b.rules)
    ensures Sound(b)
  {
  }

  lemma HoldsButRules(a: Tables, b: Tables, w: Want)
    requires Holds(a, w) && b == a.(rules := b.rules)
    ensures Holds(b, w)
  {
  }

  /** One turn of applyConfigUpdates: the database moves to the next snapshot of the channel, merged with
      the local one, or stays as it is. */
  method ApplyNext(manager: Manager, i: nat, local: Option<Snapshot>, db: Database, o: Oracle, faults: nat -> bool)
    returns (v: Versioned, ok: bool)
    requires manager.Valid() && Sound(db.tables)
    requires i < |manager.listeners| && manager.listeners[i].taken < |manager.listeners[i].sent|
    modifies manager`channels, manager`listeners, db
    ensures manager.Valid() && Sound(db.tables)
    ensures var l := old(manager.listeners)[i];
            && v == l.sent[l.taken] && v in manager.published[l.start..]
            && manager.listeners == old(manager.listeners)[i := l.(taken := l.taken + 1)]
            && forall j :: 0 <= j < l.taken ==> l.sent[j].version < v.version
    ensures !ok ==> db.tables == old(db.tables)
    ensures ok ==> Committed(o, old(db.tables), Merge(local, Some(v.config)), db.tables)
    ensures var s := Merge(local, Some(v.config));
            NoFaults(faults) && AllWanted(o, s) && AllRules(o, s) && DistinctRules(o, s) ==> ok
  {
    hide Reconciled, Agreeing, Sound, Increasing, IsSubsequence, ReconcilesRoutes, ReconcilesRules, RulesReconciled, AllWanted, AllRules, DistinctRules, NoFaults;
    v := manager.Receive(i);
    var s := MergeConfigSnapshots(local, Some(v.config));
    ghost var before := db.tables;
    ok := db.ApplySnapshot(o, s, faults);
    RulesDoNotMatter(o, before, s, db.tables, before.rules);
  }

  // ----- all its turns

  /** What happens before a turn, and which of the turn's statements fail. */
  datatype UpdateTurn = UpdateTurn(messages: seq<Message>, diskFails: bool, faults: nat -> bool)

  /** A subscriber that took nothing meanwhile. */
  predicate KeepsUp(before: Listener, after: Listener) {
    after.start == before.start && after.taken == before.taken && before.sent <= after.sent
  }

  /** A turn takes a snapshot if there is one: what was waiting is taken before the turns are over, if there
      are enough of them. */
  predicate TakesInTurn(before: Listener, after: Listener, turns: nat) {
    && before.sent <= after.sent
    && after.taken >= if before.taken + turns < |before.sent| then before.taken + turns else |before.sent|
  }

  lemma TakesNothing(l: Listener)
    requires l.taken <= |l.sent|
    ensures TakesInTurn(l, l, 0)
  {
  }

  /** What another turn takes, if anything is waiting. */
  lemma TakesNext(before: Listener, l: Listener, m: Listener, turns: nat)
    requires TakesInTurn(before, l, turns) && KeepsUp(l, m)
    ensures m.taken >= |m.sent| ==> TakesInTurn(before, m, turns + 1)
    ensures TakesInTurn(before, m.(taken := m.taken + 1), turns + 1)
  {
  }

  method HandleAll(manager: Manager, messages: seq<Message>, diskFails: bool, ghost i: nat)
    requires manager.Valid() && i < |manager.listeners|
    modifies manager
    ensures manager.Valid() && |manager.listeners| == |old(manager.listeners)|
    ensures old(manager.published) <= manager.published
    ensures KeepsUp(old(manager.listeners)[i], manager.listeners[i])
  {
    hide WellServed, Increasing, IsSubsequence;
    for n := 0 to |messages|
      invariant manager.Valid() && |manager.listeners| == |old(manager.listeners)|
      invariant old(manager.published) <= manager.published
      invariant KeepsUp(old(manager.listeners)[i], manager.listeners[i])
    {
      var _ := manager.HandleMessage(messages[n], diskFails);
    }
  }

  /** The states between the snapshots that were committed. */
  ghost predicate Trace(o: Oracle, local: Option<Snapshot>, states: seq<Tables>, committed: seq<Versioned>)
    decreases |committed|
  {
    var n := |committed|;
    |states| == n + 1 && (n == 0 ||
      (Trace(o, local, states[..n], committed[..n - 1])
       && Committed(o, states[n - 1], Merge(local, Some(committed[n - 1].config)), states[n])))
  }

  lemma TraceNext(o: Oracle, local: Option<Snapshot>, states: seq<Tables>, committed: seq<Versioned>, v: Versioned, t: Tables)
    requires Trace(o, local, states, committed) && Committed(o, states[|committed|], Merge(local, Some(v.config)), t)
    ensures Trace(o, local, states + [t], committed + [v])
  {
    hide Committed;
    var n := |committed| + 1;
    assert (states + [t])[..n] == states && (committed + [v])[..n - 1] == committed;
  }

  /** Any number of turns, with anything published in between: the snapshots committed are published ones
      with strictly increasing versions, and the tables go through one commit after another. */
  method ApplyUpdates(manager: Manager, i: nat, local: Option<Snapshot>, db: Database, o: Oracle, turns: seq<UpdateTurn>)
    returns (committed: seq<Versioned>, ghost states: seq<Tables>)
    requires manager.Valid() && Sound(db.tables) && i < |manager.listeners|
    modifies manager, db
    ensures manager.Valid() && Sound(db.tables)
    ensures Increasing(committed) && forall v :: v in committed ==> v in manager.published
    ensures i < |manager.listeners| && TakesInTurn(old(manager.listeners)[i], manager.listeners[i], |turns|)
    ensures Trace(o, local, states, committed) && states[0] == old(db.tables) && states[|committed|] == db.tables
  {
    hide Sound, WellServed, IsSubsequence, Increasing, Committed, Trace, Merge, TakesInTurn, NoFaults, AllWanted, AllRules, DistinctRules;
    TakesNothing(manager.listeners[i]);
    committed, states := [], [db.tables];
    TraceStarts(o, local, db.tables);
    for n := 0 to |turns|
      invariant manager.Valid() && Sound(db.tables) && i < |manager.listeners|
      invariant Increasing(committed) && forall v :: v in committed ==> v in manager.published
      invariant TakesInTurn(old(manager.listeners)[i], manager.listeners[i], n)
      invariant committed != [] ==> TakenBefore(manager.listeners[i], committed[|committed| - 1])
      invariant |states| == |committed| + 1
      invariant Trace(o, local, states, committed) && states[0] == old(db.tables) && states[|committed|] == db.tables
    {
      ghost var l := manager.listeners[i];
      HandleAll(manager, turns[n].messages, turns[n].diskFails, i);
      TakesNext(old(manager.listeners)[i], l, manager.listeners[i], n);
      if manager.channels[i] != [] {
        ghost var m := manager.listeners[i];
        var v, ok := ApplyNext(manager, i, local, db, o, turns[n].faults);
        if ok {
          TraceNext(o, local, states, committed, v, db.tables);
          IncreasingAppend(committed, v);
          committed, states := committed + [v], states + [db.tables];
        }
      }
    }
  }

  ghost predicate TakenBefore(l: Listener, v: Versioned) {
    exists j :: 0 <= j < l.taken && j < |l.sent| && l.sent[j] == v
  }

  lemma TraceStarts(o: Oracle, local: Option<Snapshot>, t: Tables)
    ensures Trace(o, local, [t], []) && Increasing([])
  {
  }

  predicate OnRoutes(local: Option<Snapshot>, v: Versioned) {
    ReconcilesRoutes(Merge(local, Some(v.config)))
  }

  /** The last commit that had something to say about routes: one more than its place, or 0. */
  function LastOnRoutes(local: Option<Snapshot>, committed: seq<Versioned>): (k: nat)
    ensures k <= |committed|
  {
    var n := |committed|;
    if n == 0 then 0 else if OnRoutes(local, committed[n - 1]) then n else LastOnRoutes(local, committed[..n - 1])
  }

  lemma {:induction false} LastOnRoutesMeaning(local: Option<Snapshot>, committed: seq<Versioned>)
    ensures var k := LastOnRoutes(local, committed);
            && (k > 0 ==> OnRoutes(local, committed[k - 1]))
            && forall j :: k <= j < |committed| ==> !OnRoutes(local, committed[j])
  {
    hide OnRoutes;
    var n := |committed|;
    if n > 0 && !OnRoutes(local, committed[n - 1]) {
      LastOnRoutesMeaning(local, committed[..n - 1]);
      assert forall j :: 0 <= j < n - 1 ==> committed[j] == committed[..n - 1][j];
    }
  }

  /** Whatever has been committed, the routes are those the last such commit asked for, or the ones there
      were in the beginning. */
  lemma {:induction false} LastRoutesStand(o: Oracle, local: Option<Snapshot>, states: seq<Tables>, committed: seq<Versioned>)
    requires Trace(o, local, states, committed)
    ensures var k, last := LastOnRoutes(local, committed), states[|committed|];
            && last == states[k].(rules := last.rules)
            && (k > 0 ==>
                  var s := Merge(local, Some(committed[k - 1].config));
                  Reconciled(o, states[k - 1], s, last) <==> Agreeing(o, s))
    decreases |committed|
  {
    hide Reconciled, Agreeing, Sound, RulesReconciled, AllWanted, AllRules, ReconcilesRoutes, ReconcilesRules, Merge;
    var n := |committed|;
    if n > 0 {
      var s := Merge(local, Some(committed[n - 1].config));
      if !ReconcilesRoutes(s) {
        LastRoutesStand(o, local, states[..n], committed[..n - 1]);
        var k := LastOnRoutes(local, committed);
        assert states[..n][n - 1] == states[n - 1] && states[..n][k] == states[k];
        if k > 0 {
          var earlier := Merge(local, Some(committed[k - 1].config));
          assert states[n - 1].(rules := states[n].rules) == states[n];
          RulesDoNotMatter(o, states[k - 1], earlier, states[n - 1], states[n].rules);
        }
      }
    }
  }

  // ----- the keys of the rules

  /** A rule of the control plane once its name and expression are settled. */
  datatype NamedRule = NamedRule(id: string, data: RuleData)

  function Digit(n: nat): char
    requires n < 10
  {
    ('0' as int + n) as char
  }

  function Itoa(n: nat): string {
    if n < 10 then [Digit(n)] else Itoa(n / 10) + [Digit(n % 10)]
  }

  lemma {:induction false} ItoaInjective(a: nat, b: nat)
    requires Itoa(a) == Itoa(b)
    ensures a == b
  {
    var s, t := Itoa(a), Itoa(b);
    assert s[|s| - 1] == t[|t| - 1];
    if a >= 10 && b >= 10 {
      assert s[..|s| - 1] == Itoa(a / 10) && t[..|t| - 1] == Itoa(b / 10);
      ItoaInjective(a / 10, b / 10);
    } else {
      ItoaLength(a);
      ItoaLength(b);
    }
  }

  lemma ItoaLength(n: nat)
    ensures |Itoa(n)| >= 1 && (n >= 10 ==> |Itoa(n)| >= 2)
  {
    if n >= 10 {
      ItoaLength(n / 10);
    }
  }

  /** The k-th key that is tried for a rule. */
  function KeyAt(base: string, k: nat): string {
    if k < 2 then base else base + "#" + Itoa(k)
  }

  lemma KeysDiffer(base: string, j: nat, k: nat)
    requires 1 <= j < k
    ensures KeyAt(base, j) != KeyAt(base, k)
  {
    if KeyAt(base, j) == KeyAt(base, k) {
      ItoaLength(k);
      if j >= 2 {
        assert KeyAt(base, j)[|base| + 1..] == Itoa(j) && KeyAt(base, k)[|base| + 1..] == Itoa(k);
        ItoaInjective(j, k);
      }
    }
  }

  /** The search for a free key: it ends, because the keys it tries are all different, and it takes the
      first that is free. */
  method FreeKey(base: string, rules: map<string, RuleData>) returns (key: string, ghost k: nat)
    ensures k >= 1 && key == KeyAt(base, k) && key !in rules
    ensures forall j :: 1 <= j < k ==> KeyAt(base, j) in rules
  {
    hide KeyAt;
    key := base;
    k := 1;
    assert key == KeyAt(base, 1) by { FirstKey(base); }
    var suffix := 2;
    ghost var tried: set<string> := {};
    while key in rules
      invariant suffix == k + 1 && k >= 1 && key == KeyAt(base, k)
      invariant tried <= rules.Keys
      invariant forall t :: t in tried ==> exists j :: 1 <= j < k && t == KeyAt(base, j)
      invariant forall j :: 1 <= j < k ==> KeyAt(base, j) in rules
      decreases |rules.Keys - tried|
    {
      forall t | t in tried
        ensures t != key
      {
        var j :| 1 <= j < k && t == KeyAt(base, j);
        KeysDiffer(base, j, k);
      }
      assert rules.Keys - (tried + {key}) == rules.Keys - tried - {key};
      tried := tried + {key};
      key := base + "#" + Itoa(suffix);
      k := suffix;
      LaterKey(base, suffix);
      suffix := suffix + 1;
    }
  }

  lemma FirstKey(base: string)
    ensures KeyAt(base, 1) == base
  {
  }

  lemma LaterKey(base: string, k: nat)
    requires k >= 2
    ensures KeyAt(base, k) == base + "#" + Itoa(k)
  {
  }

  ghost predicate DistinctKeys(keys: seq<string>) {
    forall i, j :: 0 <= i < j < |keys| ==> keys[i] != keys[j]
  }

  /** rules holds the data of named under keys, and nothing else. */
  ghost predicate Keyed(rules: map<string, RuleData>, keys: seq<string>, named: seq<NamedRule>) {
    && |keys| == |named|
    && (forall k :: k in rules <==> k in keys)
    && forall i :: 0 <= i < |named| ==> keys[i] in rules && rules[keys[i]] == named[i].data
  }

  lemma KeyedNext(rules: map<string, RuleData>, keys: seq<string>, named: seq<NamedRule>, key: string, rule: NamedRule)
    requires Keyed(rules, keys, named) && key !in rules
    ensures Keyed(rules[key := rule.data], keys + [key], named + [rule])
  {
  }

  lemma DistinctKeysNext(rules: map<string, RuleData>, keys: seq<string>, named: seq<NamedRule>, key: string)
    requires Keyed(rules, keys, named) && key !in rules && DistinctKeys(keys)
    ensures DistinctKeys(keys + [key])
  {
    forall i | 0 <= i < |keys|
      ensures keys[i] != key
    {
      assert keys[i] in rules;
    }
  }

  lemma OneMore<V>(m: map<string, V>, key: string, value: V)
    requires key !in m
    ensures |m[key := value]| == |m| + 1
  {
    assert m[key := value].Keys == m.Keys + {key};
    assert |m.Keys + {key}| == |m.Keys| + 1;
  }

  /** The key is the first of base, base#2, base#3 and so on that is not among those taken. */
  ghost predicate IsFirstFree(base: string, key: string, taken: seq<string>) {
    key !in taken &&
    exists k: nat :: k >= 1 && key == KeyAt(base, k) && forall j :: 1 <= j < k ==> KeyAt(base, j) in taken
  }

  lemma FirstFree(base: string, key: string, k: nat, rules: map<string, RuleData>, keys: seq<string>, named: seq<NamedRule>)
    requires Keyed(rules, keys, named) && k >= 1 && key == KeyAt(base, k) && key !in rules
    requires forall j :: 1 <= j < k ==> KeyAt(base, j) in rules
    ensures IsFirstFree(base, key, keys)
  {
    hide KeyAt;
  }

  /** The decimal digits of a number have its value, and the first of several is not zero. */
  lemma {:induction false} ItoaMeaning(n: nat)
    ensures Value(Itoa(n)) == n && |Itoa(n)| >= 1
    ensures forall i :: 0 <= i < |Itoa(n)| ==> '0' <= Itoa(n)[i] <= '9'
    ensures |Itoa(n)| > 1 ==> Itoa(n)[0] != '0'
  {
    if n >= 10 {
      ItoaMeaning(n / 10);
      var s := Itoa(n / 10);
      assert Itoa(n)[..|s|] == s;
      assert n / 10 < 10 ==> s == [Digit(n / 10)];
    }
  }

  function Value(s: string): int {
    if s == "" then 0 else 10 * Value(s[..|s| - 1]) + (s[|s| - 1] as int - '0' as int)
  }

  /** No rule overwrites another, even when ids or names repeat. */
  method KeyRules(named: seq<NamedRule>) returns (rules: map<string, RuleData>, keys: seq<string>)
    ensures Keyed(rules, keys, named)
    ensures DistinctKeys(keys) && |rules| == |named|
    ensures forall i :: 0 <= i < |named| ==>
              IsFirstFree(if TrimSpace(named[i].id) != "" then TrimSpace(named[i].id) else named[i].data.name, keys[i], keys[..i])
  {
    hide Keyed, DistinctKeys, TrimSpace, IsFirstFree;
    rules, keys := map[], [];
    assert named[..0] == [];
    assert Keyed(rules, keys, named[..0]) && DistinctKeys(keys) by { NothingKeyed(); }
    for i := 0 to |named|
      invariant Keyed(rules, keys, named[..i]) && DistinctKeys(keys) && |rules| == i && |keys| == i
      invariant forall j :: 0 <= j < i ==>
                  IsFirstFree(if TrimSpace(named[j].id) != "" then TrimSpace(named[j].id) else named[j].data.name, keys[j], keys[..j])
    {
      var key, k := FreeKey(IfEmpty(TrimSpace(named[i].id), named[i].data.name), rules);
      FirstFree(IfEmpty(TrimSpace(named[i].id), named[i].data.name), key, k, rules, keys, named[..i]);
      assert keys[..i] == keys;
      KeyedNext(rules, keys, named[..i], key, named[i]);
      DistinctKeysNext(rules, keys, named[..i], key);
      OneMore(rules, key, named[i].data);
      assert named[..i] + [named[i]] == named[..i + 1];
      rules := rules[key := named[i].data];
      ghost var before := keys;
      keys := keys + [key];
      assert forall j :: 0 <= j <= i ==> keys[..j] == before[..j];
    }
    assert named[..|named|] == named;
  }

  lemma NothingKeyed()
    ensures Keyed(map[], [], []) && DistinctKeys([])
  {
  }
}
