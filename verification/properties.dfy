/** Properties of the session registry that relate several operations: the
    registry invariant is established by a fresh store and kept by every
    operation, sessions never leave the registry, and a stopped session
    stays stopped. */
module StoreProperties {
  import opened Wrappers
  import opened Collections
  import opened MinuteKeys
  import opened Sessions
  import opened SessionsStore

  /** A fresh store satisfies the invariant and holds nothing. */
  lemma EmptyIsValid()
    ensures Valid(Empty) && |Empty.index| == 0 && Stored(Empty) == {}
  {
  }

  /** In a valid store no id is held in two buckets. */
  lemma ExactlyOneBucket(st: Store, k1: MinuteKey, k2: MinuteKey, id: SessionId)
    requires Valid(st) && Holds(st, k1, id) && Holds(st, k2, id)
    ensures k1 == k2
  {
  }

  /** `st'` is `st` with the entry under `id` replaced by (or extended with)
      `s`, filed in bucket `k` only, and the index pointing at `k`. */
  ghost predicate Replaced(st: Store, st': Store, id: SessionId, k: MinuteKey, s: ChargingSession)
  {
    && Holds(st', k, id) && st'.buckets[k][id] == s
    && (forall k' :: k' != k ==> !Holds(st', k', id))
    && (forall k', x :: x != id ==>
          (Holds(st', k', x) <==> Holds(st, k', x)) &&
          (Holds(st, k', x) ==> st'.buckets[k'][x] == st.buckets[k'][x]))
    && st'.index == st.index[id := k]
  }

  /** Filing a well-formed session under its own id, in the bucket of the
      minute of its most recent lifecycle event, keeps the invariant. */
  lemma ReplaceKeepsValid(st: Store, st': Store, id: SessionId, k: MinuteKey, s: ChargingSession)
    requires Valid(st) && Replaced(st, st', id, k, s)
    requires s.id == id && WellFormed(s) && Key(LastEvent(s)) == k
    ensures Valid(st')
  {
    forall x | x in st'.index ensures Holds(st', st'.index[x], x) {
      if x != id { assert Holds(st, st.index[x], x); }
    }
    forall k', x | Holds(st', k', x) ensures x in st'.index && st'.index[x] == k' {
      if x != id { assert Holds(st, k', x); }
    }
    forall k', x | Holds(st', k', x)
      ensures var e := st'.buckets[k'][x]; e.id == x && WellFormed(e) && Key(LastEvent(e)) == k'
    {
      if x != id { assert Holds(st, k', x); }
    }
  }

  /** Adding a session with a fresh id keeps the invariant, grows the index by
      one, and adds exactly the new session to the stored ones. */
  lemma AddPreservesValid(st: Store, id: SessionId, stationId: string, time: Time)
    requires Valid(st) && id !in st.index
    ensures Valid(AddSession(st, id, stationId, time).0)
    ensures |AddSession(st, id, stationId, time).0.index| == |st.index| + 1
    ensures Stored(AddSession(st, id, stationId, time).0) == Stored(st) + {AddSession(st, id, stationId, time).1}
  {
    var (st', s) := AddSession(st, id, stationId, time);
    forall k' | k' != Key(time) ensures !Holds(st', k', id) {
      assert !Holds(st, k', id);
    }
    assert Replaced(st, st', id, Key(time), s);
    ReplaceKeepsValid(st, st', id, Key(time), s);
    StoredWithoutFresh(st, id);
    StoredAfterPut(st, st', id, Key(time), s);
  }

  /** Stopping keeps the invariant and the number of indexed sessions; on
      success the stopped session replaces the one it was made from. */
  lemma StopPreservesValid(st: Store, id: SessionId, stopTime: Time)
    requires Valid(st)
    ensures Valid(StopSession(st, id, stopTime).0)
    ensures |StopSession(st, id, stopTime).0.index| == |st.index|
    ensures var (st', res) := StopSession(st, id, stopTime);
      res.Success? ==> id in st.index && Stored(st') == Stored(st) - {Lookup(st, id)} + {res.value}
  {
    var (st', res) := StopSession(st, id, stopTime);
    if res.Success? {
      var s := res.value;
      assert Replaced(st, st', id, Key(stopTime), s);
      assert Holds(st, st.index[id], id);
      ReplaceKeepsValid(st, st', id, Key(stopTime), s);
      StoredWithoutIndexed(st, id);
      StoredAfterPut(st, st', id, Key(stopTime), s);
    }
  }

  /** The stored sessions after replacing (or inserting) the entry `id`, which
      ends up in bucket `k` only. */
  lemma StoredAfterPut(st: Store, st': Store, id: SessionId, k: MinuteKey, s: ChargingSession)
    requires Holds(st', k, id) && st'.buckets[k][id] == s
    requires forall k' :: k' != k ==> !Holds(st', k', id)
    requires forall k', x :: x != id ==>
      (Holds(st', k', x) <==> Holds(st, k', x)) &&
      (Holds(st, k', x) ==> st'.buckets[k'][x] == st.buckets[k'][x])
    ensures Stored(st') == StoredWithout(st, id) + {s}
  {
    forall e | e in Stored(st') ensures e in StoredWithout(st, id) + {s} {
      var k', x :| k' in st'.buckets && x in st'.buckets[k'] && st'.buckets[k'][x] == e;
      if x != id { assert Holds(st, k', x); } else { assert Holds(st', k', x); }
    }
    forall e | e in StoredWithout(st, id) ensures e in Stored(st') {
      var k', x :| k' in st.buckets && x in st.buckets[k'] && x != id && st.buckets[k'][x] == e;
      assert Holds(st, k', x);
    }
  }

  /** The stored sessions other than those under `id`. */
  ghost function StoredWithout(st: Store, id: SessionId): set<ChargingSession>
  {
    set k, x | k in st.buckets && x in st.buckets[k] && x != id :: st.buckets[k][x]
  }

  /** In a valid store, the sessions stored under ids other than `id` are all
      stored sessions but the one under `id`. */
  lemma StoredWithoutIndexed(st: Store, id: SessionId)
    requires Valid(st) && id in st.index
    ensures Stored(st) == StoredWithout(st, id) + {Lookup(st, id)}
    ensures Lookup(st, id) !in StoredWithout(st, id)
  {
    assert Holds(st, st.index[id], id);
    forall e | e in StoredWithout(st, id) ensures e != Lookup(st, id) {
      var k, x :| k in st.buckets && x in st.buckets[k] && x != id && st.buckets[k][x] == e;
      assert Holds(st, k, x);
    }
    forall e | e in Stored(st) ensures e in StoredWithout(st, id) + {Lookup(st, id)} {
      var k, x :| k in st.buckets && x in st.buckets[k] && st.buckets[k][x] == e;
      assert Holds(st, k, x);
    }
  }

  /** In a valid store with a fresh id nothing is stored under that id. */
  lemma StoredWithoutFresh(st: Store, id: SessionId)
    requires Valid(st) && id !in st.index
    ensures StoredWithout(st, id) == Stored(st)
  {
    forall e | e in Stored(st) ensures e in StoredWithout(st, id) {
      var k, x :| k in st.buckets && x in st.buckets[k] && st.buckets[k][x] == e;
      assert Holds(st, k, x);
    }
  }

  /** Seen through the index, an add registers the new session under its id
      and leaves every other indexed session as it was. */
  lemma AddLookups(st: Store, id: SessionId, stationId: string, time: Time)
    requires Valid(st) && id !in st.index
    ensures var (st', s) := AddSession(st, id, stationId, time);
      && Valid(st') && st'.index.Keys == st.index.Keys + {id}
      && Lookup(st', id) == s
      && forall x :: x in st.index ==> Lookup(st', x) == Lookup(st, x)
  {
    var (st', s) := AddSession(st, id, stationId, time);
    assert Valid(st') by { AddPreservesValid(st, id, stationId, time); }
    forall x | x in st.index ensures Lookup(st', x) == Lookup(st, x) {
      assert Holds(st, st.index[x], x);
    }
  }

  /** Seen through the index, stopping an indexed session succeeds, turns
      that session into its stopped copy and leaves every other one as it was. */
  lemma StopLookups(st: Store, id: SessionId, stopTime: Time)
    requires Valid(st) && id in st.index
    ensures var (st', res) := StopSession(st, id, stopTime);
      && res.Success? && Valid(st') && st'.index.Keys == st.index.Keys
      && res.value == Lookup(st, id).(status := Stopped, stoppedAt := Some(stopTime))
      && Lookup(st', id) == res.value
      && forall x :: x in st.index && x != id ==> Lookup(st', x) == Lookup(st, x)
  {
    var (st', res) := StopSession(st, id, stopTime);
    assert Holds(st, st.index[id], id);
    assert Valid(st') by { StopPreservesValid(st, id, stopTime); }
    forall x | x in st.index && x != id ensures Lookup(st', x) == Lookup(st, x) {
      assert Holds(st, st.index[x], x);
    }
  }

  /** A stopped session stays stopped: stopping it again keeps it stopped,
      and stopping another session leaves it alone. */
  lemma StopKeepsStopped(st: Store, id: SessionId, x: SessionId, stopTime: Time)
    requires Valid(st) && x in st.index && Lookup(st, x).status == Stopped
    ensures var st' := StopSession(st, id, stopTime).0;
      Valid(st') && x in st'.index && Lookup(st', x).status == Stopped
  {
    if id in st.index {
      StopLookups(st, id, stopTime);
    }
  }

  /** Adding a session leaves a stopped one stopped. */
  lemma AddKeepsStopped(st: Store, id: SessionId, stationId: string, time: Time, x: SessionId)
    requires Valid(st) && id !in st.index && x in st.index && Lookup(st, x).status == Stopped
    ensures var st' := AddSession(st, id, stationId, time).0;
      Valid(st') && x in st'.index && Lookup(st', x).status == Stopped
  {
    AddLookups(st, id, stationId, time);
  }

  // ---------------------------------------------------------------------
  // Traces of commands
  // ---------------------------------------------------------------------

  /** A call into the registry: submit a new session, or stop one. */
  datatype Command = Submit(id: SessionId, stationId: string, at: Time) | Stop(id: SessionId, at: Time)

  /** A submit must come with an id the registry has not seen. */
  predicate Fresh(st: Store, c: Command)
  {
    c.Submit? ==> c.id !in st.index
  }

  function Apply(st: Store, c: Command): Store
    requires Fresh(st, c)
  {
    match c
    case Submit(id, stationId, at) => AddSession(st, id, stationId, at).0
    case Stop(id, at) => StopSession(st, id, at).0
  }

  /** Every submit in `cs` comes with an id fresh at that point. */
  predicate Admissible(st: Store, cs: seq<Command>)
    decreases |cs|
  {
    cs == [] || (Fresh(st, cs[0]) && Admissible(Apply(st, cs[0]), cs[1..]))
  }

  /** The store after the commands `cs`, one at a time. */
  function Run(st: Store, cs: seq<Command>): Store
    requires Admissible(st, cs)
    decreases |cs|
  {
    if cs == [] then st else Run(Apply(st, cs[0]), cs[1..])
  }

  function SubmitCount(cs: seq<Command>): nat
  {
    if cs == [] then 0 else (if cs[0].Submit? then 1 else 0) + SubmitCount(cs[1..])
  }

  /** One command keeps the invariant; a submit grows the registry by one and a stop leaves its size alone. */
  lemma ApplyPreservesValid(st: Store, c: Command)
    requires Valid(st) && Fresh(st, c)
    ensures Valid(Apply(st, c))
    ensures |Apply(st, c).index| == |st.index| + (if c.Submit? then 1 else 0)
  {
    match c
    case Submit(id, stationId, at) => AddPreservesValid(st, id, stationId, at);
    case Stop(id, at) => StopPreservesValid(st, id, at);
  }

  /** One command keeps a stopped session present and stopped. */
  lemma ApplyKeepsStopped(st: Store, c: Command, x: SessionId)
    requires Valid(st) && Fresh(st, c)
    requires x in st.index && Lookup(st, x).status == Stopped
    ensures Valid(Apply(st, c)) && x in Apply(st, c).index && Lookup(Apply(st, c), x).status == Stopped
  {
    match c
    case Submit(id, stationId, at) => AddKeepsStopped(st, id, stationId, at, x);
    case Stop(id, at) => StopKeepsStopped(st, id, x, at);
  }

  /** Any admissible interleaving of submits and stops keeps the invariant and
      grows the registry by exactly the number of submits: stops never add or
      remove a session. */
  lemma {:induction false} RunKeepsValid(st: Store, cs: seq<Command>)
    requires Valid(st) && Admissible(st, cs)
    ensures Valid(Run(st, cs))
    ensures |Run(st, cs).index| == |st.index| + SubmitCount(cs)
    decreases |cs|
  {
    if cs != [] {
      ApplyPreservesValid(st, cs[0]);
      RunKeepsValid(Apply(st, cs[0]), cs[1..]);
    }
  }

  /** Starting from a fresh store, the registry holds one session per submit. */
  lemma RunFromEmpty(cs: seq<Command>)
    requires Admissible(Empty, cs)
    ensures Valid(Run(Empty, cs)) && |Run(Empty, cs).index| == SubmitCount(cs)
  {
    RunKeepsValid(Empty, cs);
  }

  /** After any admissible commands a session that was stopped is still
      present and still stopped. */
  lemma {:induction false} RunKeepsStopped(st: Store, cs: seq<Command>, x: SessionId)
    requires Valid(st) && Admissible(st, cs)
    requires x in st.index && Lookup(st, x).status == Stopped
    ensures Valid(Run(st, cs)) && x in Run(st, cs).index && Lookup(Run(st, cs), x).status == Stopped
    decreases |cs|
  {
    if cs == [] {
    } else {
      ApplyKeepsStopped(st, cs[0], x);
      RunKeepsStopped(Apply(st, cs[0]), cs[1..], x);
    }
  }
}
