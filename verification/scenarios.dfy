/** The registry scenarios of `SessionsStoreApplicationTests`, replayed on the
    model with a symbolic clock reading `now` and caller-chosen fresh ids. */
module StoreScenarios {
  import opened Wrappers
  import opened Collections
  import opened MinuteKeys
  import opened Sessions
  import opened SessionsStore
  import opened StoreProperties

  /** The station id every test session uses. */
  const Station: string := "ABC-12345"

  /** In a valid store every stored session is indexed under its own id. */
  lemma StoredAreIndexed(st: Store, s: ChargingSession)
    requires Valid(st) && s in Stored(st)
    ensures s.id in st.index && Lookup(st, s.id) == s
  {
    var k, id :| k in st.buckets && id in st.buckets[k] && st.buckets[k][id] == s;
    assert Holds(st, k, id);
  }

  /** `createInProgressSession`: add a session started at `time`; the sessions
      already present are left as they were. */
  method CreateInProgress(st: Store, id: SessionId, time: Time) returns (st': Store, s: ChargingSession)
    requires Valid(st) && id !in st.index
    ensures Valid(st') && st'.index.Keys == st.index.Keys + {id}
    ensures s == ChargingSession(id, Station, time, None, InProgress)
    ensures Lookup(st', id) == s
    ensures forall x :: x in st.index ==> Lookup(st', x) == Lookup(st, x)
  {
    AddLookups(st, id, Station, time);
    var res := AddSession(st, id, Station, time);
    st', s := res.0, res.1;
  }

  /** `createStoppedSession`: add a session started at `start` and stop it at
      `stop`; the sessions already present are left as they were. */
  method CreateStopped(st: Store, id: SessionId, start: Time, stop: Time) returns (st': Store, s: ChargingSession)
    requires Valid(st) && id !in st.index
    ensures Valid(st') && st'.index.Keys == st.index.Keys + {id}
    ensures s == ChargingSession(id, Station, start, Some(stop), Stopped)
    ensures Lookup(st', id) == s
    ensures forall x :: x in st.index ==> Lookup(st', x) == Lookup(st, x)
  {
    var mid, started := CreateInProgress(st, id, start);
    StopLookups(mid, id, stop);
    var res := StopSession(mid, id, stop);
    st', s := res.0, res.1.value;
  }

  /** In a valid store whose index holds exactly `ids`, the stored sessions are
      those the index leads to. */
  lemma StoredFromLookups(st: Store, ids: seq<SessionId>, sessions: seq<ChargingSession>)
    requires Valid(st) && |ids| == |sessions| && st.index.Keys == Elems(ids)
    requires forall i :: 0 <= i < |ids| ==> Lookup(st, ids[i]) == sessions[i]
    ensures Stored(st) == Elems(sessions)
  {
    forall s | s in Stored(st) ensures s in Elems(sessions) {
      StoredAreIndexed(st, s);
      var i :| 0 <= i < |ids| && ids[i] == s.id;
    }
    forall i | 0 <= i < |ids| ensures sessions[i] in Stored(st) {
      assert Holds(st, st.index[ids[i]], ids[i]);
    }
  }

  /** The ten sessions of the window test, in the order the test creates them. */
  function TenSessions(now: Time, ids: seq<SessionId>): (r: seq<ChargingSession>)
    requires |ids| == 10
    ensures |r| == 10 && forall i :: 0 <= i < 10 ==> r[i].id == ids[i]
  {
    var second := NanosPerSecond;
    [ ChargingSession(ids[0], Station, now, None, InProgress),
      ChargingSession(ids[1], Station, now - 59 * second, None, InProgress),
      ChargingSession(ids[2], Station, now - 61 * second, None, InProgress),
      ChargingSession(ids[3], Station, now - 120 * second, None, InProgress),
      ChargingSession(ids[4], Station, now, Some(now), Stopped),
      ChargingSession(ids[5], Station, now - 59 * second, Some(now), Stopped),
      ChargingSession(ids[6], Station, now - 61 * second, Some(now), Stopped),
      ChargingSession(ids[7], Station, now - 61 * second, Some(now - 61 * second), Stopped),
      ChargingSession(ids[8], Station, now - 120 * second, Some(now), Stopped),
      ChargingSession(ids[9], Station, now - 120 * second, Some(now - 120 * second), Stopped) ]
  }

  /** `stopSession` on an id the registry holds: that session is now
      stopped, and the others are left as they were. */
  method StopKnown(st: Store, id: SessionId, stopTime: Time) returns (st': Store)
    requires Valid(st) && id in st.index
    ensures Valid(st') && st'.index.Keys == st.index.Keys && |st'.index| == |st.index|
    ensures Lookup(st', id).status == Stopped && Lookup(st', id).stoppedAt == Some(stopTime)
    ensures forall x :: x in st.index && x != id ==> Lookup(st', x) == Lookup(st, x)
  {
    StopLookups(st, id, stopTime);
    StopPreservesValid(st, id, stopTime);
    st' := StopSession(st, id, stopTime).0;
  }

  /** A session the tests create: at the test station, and either in
      progress or stopped with its stop time. */
  predicate Creatable(s: ChargingSession)
  {
    s.stationId == Station && WellFormed(s)
  }

  /** Create one session the way the tests do: in progress, or started and
      then stopped. */
  method Create(st: Store, t: ChargingSession) returns (st': Store)
    requires Valid(st) && t.id !in st.index && Creatable(t)
    ensures Valid(st') && st'.index.Keys == st.index.Keys + {t.id}
    ensures Lookup(st', t.id) == t
    ensures forall x :: x in st.index ==> Lookup(st', x) == Lookup(st, x)
  {
    var s;
    if t.status == InProgress {
      st', s := CreateInProgress(st, t.id, t.startedAt);
    } else {
      st', s := CreateStopped(st, t.id, t.startedAt, t.stoppedAt.value);
    }
  }

  /** The ids of a list of sessions, in order. */
  function Ids(sessions: seq<ChargingSession>): (r: seq<SessionId>)
    ensures |r| == |sessions| && forall i :: 0 <= i < |r| ==> r[i] == sessions[i].id
  {
    if sessions == [] then [] else [sessions[0].id] + Ids(sessions[1..])
  }

  /** Growing a prefix of distinct ids by one adds an id it did not hold. */
  lemma PrefixElems(ids: seq<SessionId>, n: nat)
    requires Distinct(ids) && n < |ids|
    ensures ids[n] !in Elems(ids[..n]) && Elems(ids[..n+1]) == Elems(ids[..n]) + {ids[n]}
  {
    assert ids[..n+1] == ids[..n] + [ids[n]];
  }

  /** The first `n` listed sessions, and no others, have been created. */
  ghost predicate SeededUpTo(st: Store, sessions: seq<ChargingSession>, n: nat)
  {
    && n <= |sessions| && Valid(st)
    && st.index.Keys == Elems(Ids(sessions)[..n])
    && forall i :: 0 <= i < n ==> sessions[i].id in st.index && Lookup(st, sessions[i].id) == sessions[i]
  }

  /** Create the next listed session. */
  method SeedStep(st: Store, sessions: seq<ChargingSession>, n: nat) returns (st': Store)
    requires n < |sessions| && Creatable(sessions[n]) && Distinct(Ids(sessions))
    requires SeededUpTo(st, sessions, n)
    ensures SeededUpTo(st', sessions, n + 1)
  {
    PrefixElems(Ids(sessions), n);
    st' := Create(st, sessions[n]);
    forall i | 0 <= i <= n ensures sessions[i].id in st'.index && Lookup(st', sessions[i].id) == sessions[i] {
      if i < n {
        assert sessions[i].id in st.index;
      }
    }
  }

  /** Once every listed session has been created, the store holds exactly them. */
  lemma SeedingComplete(st: Store, sessions: seq<ChargingSession>)
    requires SeededUpTo(st, sessions, |sessions|)
    ensures Stored(st) == Elems(sessions)
  {
    var ids := Ids(sessions);
    WholePrefix(ids, |sessions|);
    StoredFromLookups(st, ids, sessions);
  }

  /** Creating each listed session in turn, through `addSession` and, for the
      stopped ones, `stopSession`, leaves a valid store holding exactly them. */
  method Seed(sessions: seq<ChargingSession>) returns (st: Store)
    requires forall i :: 0 <= i < |sessions| ==> Creatable(sessions[i])
    requires Distinct(Ids(sessions))
    ensures Valid(st) && Stored(st) == Elems(sessions)
  {
    st := Empty;
    EmptyIsValid();
    var n := 0;
    while n < |sessions|
      invariant n <= |sessions| && SeededUpTo(st, sessions, n)
    {
      st := SeedStep(st, sessions, n);
      n := n + 1;
    }
    SeedingComplete(st, sessions);
  }

  /** Of the ten sessions, exactly those whose most recent event is now or 59 s ago are in the window. */
  lemma TenSessionsInWindow(now: Time, ids: seq<SessionId>, i: int)
    requires |ids| == 10 && 0 <= i < 10
    ensures InWindow(LastEvent(TenSessions(now, ids)[i]), now) <==> i in {0, 1, 4, 5, 6, 8}
  {
    KeyMonotonic(now - 59 * NanosPerSecond, now);
  }

  /** The ten sessions can be created as the test does, and are pairwise distinct. */
  lemma TenSessionsCreatable(now: Time, ids: seq<SessionId>)
    requires |ids| == 10 && Distinct(ids)
    ensures var t := TenSessions(now, ids);
      && (forall i :: 0 <= i < 10 ==> Creatable(t[i]))
      && Distinct(Ids(t)) && Distinct(t)
  {
    var t := TenSessions(now, ids);
    assert Ids(t) == ids;
    forall i, j | 0 <= i < j < 10 ensures t[i] != t[j] {
      assert t[i].id != t[j].id;
    }
  }

  /** A listing of the ten sessions that lie in the window holds the six
      recent ones and no other. */
  lemma WindowPattern(now: Time, ids: seq<SessionId>, window: seq<ChargingSession>)
    requires |ids| == 10
    requires forall s :: s in window <==> s in Elems(TenSessions(now, ids)) && InWindow(LastEvent(s), now)
    ensures forall i :: 0 <= i < 10 ==> (TenSessions(now, ids)[i] in window <==> i in {0, 1, 4, 5, 6, 8})
  {
    forall i | 0 <= i < 10 ensures TenSessions(now, ids)[i] in window <==> i in {0, 1, 4, 5, 6, 8} {
      TenSessionsInWindow(now, ids, i);
    }
  }

  /** A distinct listing drawn from ten distinct sessions that holds exactly
      the six at positions 0, 1, 4, 5, 6 and 8 has six entries. */
  lemma WindowCount(t: seq<ChargingSession>, window: seq<ChargingSession>)
    requires |t| == 10 && Distinct(t) && Distinct(window)
    requires forall s :: s in window ==> s in t
    requires forall i :: 0 <= i < 10 ==> (t[i] in window <==> i in {0, 1, 4, 5, 6, 8})
    ensures |window| == 6
  {
    var recent := [t[0], t[1], t[4], t[5], t[6], t[8]];
    forall s | s in window ensures s in recent {
      var i :| 0 <= i < 10 && t[i] == s;
    }
    assert Elems(window) == Elems(recent);
    DistinctCard(recent);
    DistinctCard(window);
  }

  /** The ten-session test: sessions in progress since now, 59 s, 61 s and
      2 min ago; sessions started at those times and stopped now; and sessions
      started 61 s and 2 min ago and stopped at their start. Listing all gives
      the ten, and the window query gives exactly the six whose most recent
      event is now or 59 s ago. */
  method TenSessionScenario(now: Time, ids: seq<SessionId>)
      returns (sessions: seq<ChargingSession>, all: seq<ChargingSession>, window: seq<ChargingSession>)
    requires |ids| == 10 && Distinct(ids)
    ensures |sessions| == 10 && forall i :: 0 <= i < 10 ==> sessions[i].id == ids[i]
    ensures |all| == 10 && Elems(all) == Elems(sessions)
    ensures |window| == 6
    ensures forall i :: 0 <= i < 10 ==> (sessions[i] in window <==> i in {0, 1, 4, 5, 6, 8})
  {
    sessions := TenSessions(now, ids);
    TenSessionsCreatable(now, ids);
    var st := Seed(sessions);
    all := AllSessions(st);
    assert |all| == 10 by {
      DistinctCard(all);
      DistinctCard(sessions);
    }
    window := SessionsUpdatedLastMinute(st, now);
    WindowPattern(now, ids, window);
    WindowCount(sessions, window);
  }

  /** The empty-store test: listing a fresh registry gives nothing. */
  method EmptyStoreScenario() returns (all: seq<ChargingSession>)
    ensures all == []
  {
    EmptyIsValid();
    all := AllSessions(Empty);
  }

  /** The add tests: one add gives one in-progress session, a second add two. */
  method AddScenario(now: Time, id1: SessionId, id2: SessionId)
      returns (first: ChargingSession, one: seq<ChargingSession>, two: seq<ChargingSession>)
    requires id1 != id2
    ensures first.status == InProgress
    ensures |one| == 1 && |two| == 2
  {
    EmptyIsValid();
    var st1, st2, second;
    st1, first := CreateInProgress(Empty, id1, now);
    one := AllSessions(st1);
    st2, second := CreateInProgress(st1, id2, now);
    two := AllSessions(st2);
  }

  /** The stop test: two sessions added a minute apart and both stopped now
      are both listed, and both as stopped. */
  method StopBothScenario(now: Time, id1: SessionId, id2: SessionId) returns (all: seq<ChargingSession>)
    requires id1 != id2
    ensures |all| == 2
    ensures forall s :: s in all ==> s.status == Stopped
  {
    var added := AddTwo(now, id1, id2);
    var stopped := StopTwo(added, id1, id2, now);
    all := AllSessions(stopped);
    TwoStopped(stopped, id1, id2);
  }

  /** Add a session now and another a minute ago to a fresh registry. */
  method AddTwo(now: Time, id1: SessionId, id2: SessionId) returns (st: Store)
    requires id1 != id2
    ensures Valid(st) && st.index.Keys == {id1, id2}
  {
    EmptyIsValid();
    var st1, s1 := CreateInProgress(Empty, id1, now);
    var s2;
    st, s2 := CreateInProgress(st1, id2, now - NanosPerMinute);
  }

  /** Stop both sessions of a two-session registry. */
  method StopTwo(st: Store, id1: SessionId, id2: SessionId, now: Time) returns (st': Store)
    requires Valid(st) && st.index.Keys == {id1, id2} && id1 != id2
    ensures Valid(st') && st'.index.Keys == {id1, id2}
    ensures Lookup(st', id1).status == Stopped && Lookup(st', id2).status == Stopped
  {
    var st1 := StopKnown(st, id1, now);
    st' := StopKnown(st1, id2, now);
  }

  /** A valid registry holding two stopped sessions under two ids holds two
      sessions, both stopped. */
  lemma TwoStopped(st: Store, id1: SessionId, id2: SessionId)
    requires Valid(st) && st.index.Keys == {id1, id2} && id1 != id2
    requires Lookup(st, id1).status == Stopped && Lookup(st, id2).status == Stopped
    ensures |st.index| == 2
    ensures forall s :: s in Stored(st) ==> s.status == Stopped
  {
    assert |st.index| == |st.index.Keys| == |{id1, id2}|;
    forall x | x in st.index ensures Lookup(st, x).status == Stopped {
      assert x == id1 || x == id2;
    }
    OnlyStopped(st);
  }

  /** When every indexed session is stopped, every stored one is. */
  lemma OnlyStopped(st: Store)
    requires Valid(st)
    requires forall x :: x in st.index ==> Lookup(st, x).status == Stopped
    ensures forall s :: s in Stored(st) ==> s.status == Stopped
  {
    forall s | s in Stored(st) ensures s.status == Stopped {
      StoredAreIndexed(st, s);
    }
  }

  /** The unknown-id test: stopping an id a fresh registry has never seen fails. */
  lemma UnknownIdScenario(id: SessionId, now: Time)
    ensures StopSession(Empty, id, now) == (Empty, Failure(NotFound))
  {
    EmptyIsValid();
  }

  /** The stale-window test: with only a session started two minutes ago and
      one started and stopped two minutes ago, the window query gives nothing. */
  method StaleWindowScenario(now: Time, id1: SessionId, id2: SessionId) returns (window: seq<ChargingSession>)
    requires id1 != id2
    ensures window == []
  {
    var twoMinutesAgo := now - 2 * NanosPerMinute;
    var sessions := [
      ChargingSession(id1, Station, twoMinutesAgo, None, InProgress),
      ChargingSession(id2, Station, twoMinutesAgo, Some(twoMinutesAgo), Stopped)];
    assert Ids(sessions) == [id1, id2];
    var st := Seed(sessions);
    window := SessionsUpdatedLastMinute(st, now);
    forall s | s in Elems(sessions) ensures !InWindow(LastEvent(s), now) {
    }
    assert Elems(window) == {};
    NoElems(window);
  }
}
