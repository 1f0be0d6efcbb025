/** The in-memory session registry (`SessionsStore`).

    The state is two maps that must stay in step: the bucket map, from a
    minute key to the sessions last updated in that minute (keyed by id),
    and the index, from a session id to the key of the bucket holding it.
    Every operation is one atomic transition from a store value to the next;
    the Java lock that serialises them has no counterpart here. */
module SessionsStore {
  import opened Wrappers
  import opened Collections
  import opened MinuteKeys
  import opened Sessions

  type Bucket = map<SessionId, ChargingSession>

  datatype Store = Store(buckets: map<MinuteKey, Bucket>, index: map<SessionId, MinuteKey>)

  /** Why `StopSession` can fail. */
  datatype StoreError = NotFound

  /** A freshly constructed store. */
  const Empty: Store := Store(map[], map[])

  /** Bucket `k` exists and holds an entry under `id`. */
  predicate Holds(st: Store, k: MinuteKey, id: SessionId)
  {
    k in st.buckets && id in st.buckets[k]
  }

  // ---------------------------------------------------------------------
  // The registry invariant
  // ---------------------------------------------------------------------

  /** Every indexed id is present in the bucket the index names. */
  ghost predicate IndexPointsIntoBuckets(st: Store)
  {
    forall id :: id in st.index ==> Holds(st, st.index[id], id)
  }

  /** Every bucket entry is indexed under that very bucket, so a session lies in exactly one bucket. */
  ghost predicate BucketsAgreeWithIndex(st: Store)
  {
    forall k, id :: Holds(st, k, id) ==> id in st.index && st.index[id] == k
  }

  /** Entries are stored under their own id, are well formed, and sit in the
      bucket of the minute of their most recent lifecycle event. */
  ghost predicate EntriesConsistent(st: Store)
  {
    forall k, id :: Holds(st, k, id) ==>
      var s := st.buckets[k][id];
      s.id == id && WellFormed(s) && Key(LastEvent(s)) == k
  }

  ghost predicate Valid(st: Store)
  {
    IndexPointsIntoBuckets(st) && BucketsAgreeWithIndex(st) && EntriesConsistent(st)
  }

  /** The session stored under an indexed id. */
  function Lookup(st: Store, id: SessionId): ChargingSession
    requires IndexPointsIntoBuckets(st) && id in st.index
  {
    st.buckets[st.index[id]][id]
  }

  /** Every session held in any bucket. */
  ghost function Stored(st: Store): set<ChargingSession>
  {
    set k, id | k in st.buckets && id in st.buckets[k] :: st.buckets[k][id]
  }

  /** The sessions held in bucket `k`; none when the bucket is absent. */
  ghost function BucketContents(st: Store, k: MinuteKey): set<ChargingSession>
  {
    if k in st.buckets then st.buckets[k].Values else {}
  }

  /** `store.get(key)`: the bucket for `k`, or `None` (Java's `null`) when there is none. */
  function GetBucket(st: Store, k: MinuteKey): Option<Bucket>
  {
    if k in st.buckets then Some(st.buckets[k]) else None
  }

  // ---------------------------------------------------------------------
  // Operations
  // ---------------------------------------------------------------------

  /** `addSessionToStoreAndIndex`: put `s` into bucket `k` under its id,
      creating the bucket if absent, and point the index at `k`. */
  function Put(st: Store, s: ChargingSession, k: MinuteKey): (r: Store)
    ensures Holds(r, k, s.id) && r.buckets[k][s.id] == s
    ensures r.index == st.index[s.id := k]
    ensures r.buckets.Keys == st.buckets.Keys + {k}
    ensures forall k', id :: (k' != k || id != s.id) ==>
      (Holds(r, k', id) <==> Holds(st, k', id)) &&
      (Holds(st, k', id) ==> r.buckets[k'][id] == st.buckets[k'][id])
  {
    var bucket := if k in st.buckets then st.buckets[k] else map[];
    Store(st.buckets[k := bucket[s.id := s]], st.index[s.id := k])
  }

  /** `addSession(stationId, time)`: create an in-progress session with the
      fresh id `id` and file it under the minute of its start time. */
  function AddSession(st: Store, id: SessionId, stationId: string, time: Time): (r: (Store, ChargingSession))
    requires id !in st.index
    ensures r.1.id == id && r.1.stationId == stationId && r.1.startedAt == time
    ensures r.1.status == InProgress && r.1.stoppedAt.None?
    ensures Holds(r.0, Key(time), id) && r.0.buckets[Key(time)][id] == r.1
    ensures r.0.index == st.index[id := Key(time)]
    ensures forall k, x :: x != id ==>
      (Holds(r.0, k, x) <==> Holds(st, k, x)) &&
      (Holds(st, k, x) ==> r.0.buckets[k][x] == st.buckets[k][x])
  {
    var s := ChargingSession(id, stationId, time, None, InProgress);
    (Put(st, s, Key(time)), s)
  }

  /** `stopSession(id, stopTime)`: take the session out of the bucket the
      index names, mark it stopped at `stopTime` and file it again under the
      minute of the stop time. An id the index does not know, or whose bucket
      does not hold it, fails with `NotFound` and leaves the store as it was. */
  function StopSession(st: Store, id: SessionId, stopTime: Time): (r: (Store, Result<ChargingSession, StoreError>))
    ensures r.1.Failure? <==> !(id in st.index && Holds(st, st.index[id], id))
    ensures r.1.Failure? ==> r.0 == st && r.1.error == NotFound
    ensures Valid(st) ==> (r.1.Failure? <==> id !in st.index)
    ensures r.1.Success? ==>
      var before := st.buckets[st.index[id]][id];
      && r.1.value.id == before.id
      && r.1.value.stationId == before.stationId
      && r.1.value.startedAt == before.startedAt
      && r.1.value.status == Stopped
      && r.1.value.stoppedAt == Some(stopTime)
    ensures r.1.Success? && Valid(st) ==>
      && r.1.value.id == id
      && Holds(r.0, Key(stopTime), id) && r.0.buckets[Key(stopTime)][id] == r.1.value
      && (forall k :: k != Key(stopTime) ==> !Holds(r.0, k, id))
      && r.0.index == st.index[id := Key(stopTime)]
      && |r.0.index| == |st.index|
      && (forall k, x :: x != id ==>
            (Holds(r.0, k, x) <==> Holds(st, k, x)) &&
            (Holds(st, k, x) ==> r.0.buckets[k][x] == st.buckets[k][x]))
  {
    if id !in st.index || st.index[id] !in st.buckets || id !in st.buckets[st.index[id]] then
      (st, Failure(NotFound))
    else
      var k := st.index[id];
      var session := st.buckets[k][id];
      var removed := Store(st.buckets[k := st.buckets[k] - {id}], st.index - {id});
      var stopped := session.(status := Stopped, stoppedAt := Some(stopTime));
      assert forall k', x :: x != id ==>
        (Holds(removed, k', x) <==> Holds(st, k', x)) &&
        (Holds(st, k', x) ==> removed.buckets[k'][x] == st.buckets[k'][x]);
      assert (st.index - {id})[id := Key(stopTime)] == st.index[id := Key(stopTime)];
      assert Valid(st) ==> forall k' :: !Holds(removed, k', id) by {
        if Valid(st) {
          forall k' | Holds(removed, k', id) ensures false {
            assert Holds(st, k', id);
          }
        }
      }
      (Put(removed, stopped, Key(stopTime)), Success(stopped))
  }

  // ---------------------------------------------------------------------
  // Queries
  // ---------------------------------------------------------------------

  /** Every entry of `m` is stored under its own id. */
  predicate KeyedById(m: Bucket)
  {
    forall id :: id in m ==> m[id].id == id
  }

  /** `new ArrayList<>(bucket.values())`: the values of a bucket in the
      bucket's (unspecified) iteration order. `ids` is that order: each key of
      the bucket exactly once, `r[i]` being the entry under `ids[i]`. */
  method BucketValues(m: Bucket) returns (r: seq<ChargingSession>, ids: seq<SessionId>)
    ensures |ids| == |r| && Distinct(ids)
    ensures forall i :: 0 <= i < |r| ==> ids[i] in m && r[i] == m[ids[i]]
    ensures forall id :: id in m ==> id in ids
  {
    r, ids := [], [];
    var todo := m.Keys;
    while todo != {}
      invariant todo <= m.Keys
      invariant |ids| == |r| && Distinct(ids)
      invariant forall i :: 0 <= i < |r| ==> ids[i] in m && ids[i] !in todo && r[i] == m[ids[i]]
      invariant forall id :: id in m ==> id in todo || id in ids
      decreases |todo|
    {
      // supplies the element the following `:|` needs to know exists
      ghost var some := Witness(todo);
      var id :| id in todo;
      r, ids := r + [m[id]], ids + [id];
      todo := todo - {id};
    }
  }

  /** A listing of the bucket `m` in the order `ids` has one element per entry
      and, when entries are stored under their own ids, no repetition. */
  lemma BucketListing(m: Bucket, r: seq<ChargingSession>, ids: seq<SessionId>)
    requires |ids| == |r| && Distinct(ids)
    requires forall i :: 0 <= i < |r| ==> ids[i] in m && r[i] == m[ids[i]]
    requires forall id :: id in m ==> id in ids
    ensures |r| == |m| && Elems(r) == m.Values
    ensures KeyedById(m) ==> Distinct(r)
  {
    assert Elems(ids) == m.Keys;
    DistinctCard(ids);
    forall s | s in m.Values ensures s in Elems(r) {
      var id :| id in m && m[id] == s;
      var i :| 0 <= i < |ids| && ids[i] == id;
    }
    if KeyedById(m) {
      forall i, j | 0 <= i < j < |r| ensures r[i] != r[j] {
        assert r[i].id == ids[i];
      }
    }
  }

  /** `getListOfSessions`: the values of a bucket, or nothing for an absent (`null`) bucket. */
  method ListOfSessions(bucket: Option<Bucket>) returns (r: seq<ChargingSession>)
    ensures bucket.None? ==> r == []
    ensures bucket.Some? ==> |r| == |bucket.value| && Elems(r) == bucket.value.Values
    ensures bucket.Some? && KeyedById(bucket.value) ==> Distinct(r)
  {
    if bucket.Some? {
      var ids;
      r, ids := BucketValues(bucket.value);
      BucketListing(bucket.value, r, ids);
    } else {
      r := [];
    }
  }

  /** In a valid store the bucket entries are keyed by the ids of their sessions. */
  lemma ValidBucketsKeyedById(st: Store, k: MinuteKey)
    requires Valid(st) && k in st.buckets
    ensures KeyedById(st.buckets[k])
  {
    forall id | id in st.buckets[k] ensures st.buckets[k][id].id == id {
      assert Holds(st, k, id);
    }
  }

  /** `r` lists, in the order `entries`, the bucket entries whose keys are in
      `ks`: one element per (bucket key, id) pair. */
  ghost predicate ListsEntries(st: Store, r: seq<ChargingSession>, entries: seq<(MinuteKey, SessionId)>, ks: set<MinuteKey>)
  {
    && |entries| == |r|
    && Distinct(entries)
    && (forall i :: 0 <= i < |r| ==>
          entries[i].0 in ks && Holds(st, entries[i].0, entries[i].1) && r[i] == st.buckets[entries[i].0][entries[i].1])
    && (forall k, id :: k in ks && Holds(st, k, id) ==> (k, id) in entries)
  }

  /** `getAllSessions`: the contents of every bucket, bucket after bucket, in
      the (unspecified) iteration order of the bucket map. The listing holds
      exactly the stored sessions; in a valid store each of them once, so its
      length is the number of sessions ever added. */
  method AllSessions(st: Store) returns (r: seq<ChargingSession>)
    ensures Elems(r) == Stored(st)
    ensures Valid(st) ==> Distinct(r) && |r| == |st.index|
    ensures Valid(st) ==> multiset(r) == multiset(Stored(st))
  {
    r := [];
    ghost var entries: seq<(MinuteKey, SessionId)> := [];
    var todo := st.buckets.Keys;
    ghost var done: set<MinuteKey> := {};
    while todo != {}
      invariant done <= st.buckets.Keys
      invariant todo == st.buckets.Keys - done
      invariant ListsEntries(st, r, entries, done)
      decreases |todo|
    {
      // supplies the element the following `:|` needs to know exists
      ghost var some := Witness(todo);
      var key :| key in todo;
      var chunk, ids := BucketValues(st.buckets[key]);
      entries := AppendBucket(st, r, entries, done, key, chunk, ids);
      r := r + chunk;
      todo := todo - {key};
      done := done + {key};
    }
    ListingOfAllBuckets(st, r, entries);
  }

  /** One step of `AllSessions`: appending the listing of a further bucket. */
  lemma AppendBucket(st: Store, r: seq<ChargingSession>, entries: seq<(MinuteKey, SessionId)>, done: set<MinuteKey>,
                     k: MinuteKey, chunk: seq<ChargingSession>, ids: seq<SessionId>)
      returns (entries': seq<(MinuteKey, SessionId)>)
    requires k in st.buckets && k !in done
    requires ListsEntries(st, r, entries, done)
    requires |ids| == |chunk| && Distinct(ids)
    requires forall i :: 0 <= i < |chunk| ==> ids[i] in st.buckets[k] && chunk[i] == st.buckets[k][ids[i]]
    requires forall id :: id in st.buckets[k] ==> id in ids
    ensures ListsEntries(st, r + chunk, entries', done + {k})
  {
    var added := seq(|ids|, j requires 0 <= j < |ids| => (k, ids[j]));
    entries' := entries + added;
    forall i, j | 0 <= i < j < |entries'| ensures entries'[i] != entries'[j] {
      if i < |entries| && j >= |entries| {
        assert entries'[i].0 in done;
      }
    }
    forall k', id | k' in done + {k} && Holds(st, k', id) ensures (k', id) in entries' {
      if k' == k {
        var j :| 0 <= j < |ids| && ids[j] == id;
        assert entries'[|entries| + j] == (k, id);
      } else {
        assert (k', id) in entries;
      }
    }
  }

  /** A listing of all buckets holds exactly the stored sessions; in a valid
      store it repeats none of them and has one element per indexed id. */
  lemma ListingOfAllBuckets(st: Store, r: seq<ChargingSession>, entries: seq<(MinuteKey, SessionId)>)
    requires ListsEntries(st, r, entries, st.buckets.Keys)
    ensures Elems(r) == Stored(st)
    ensures Valid(st) ==> Distinct(r) && |r| == |st.index|
    ensures Valid(st) ==> multiset(r) == multiset(Stored(st))
  {
    forall s | s in Stored(st) ensures s in Elems(r) {
      var k, id :| k in st.buckets && id in st.buckets[k] && st.buckets[k][id] == s;
      assert Holds(st, k, id);
      var i :| 0 <= i < |entries| && entries[i] == (k, id);
    }
    if Valid(st) {
      forall i, j | 0 <= i < j < |r| ensures r[i] != r[j] {
        assert Holds(st, entries[i].0, entries[i].1);
        assert Holds(st, entries[j].0, entries[j].1);
      }
      StoredCount(st, r);
      DistinctMultiset(r);
    }
  }

  /** In a valid store a repetition-free listing of all stored sessions has one element per indexed id. */
  lemma StoredCount(st: Store, r: seq<ChargingSession>)
    requires Valid(st) && Distinct(r) && Elems(r) == Stored(st)
    ensures |r| == |st.index|
  {
    var ids := seq(|r|, i requires 0 <= i < |r| => r[i].id);
    forall i | 0 <= i < |r| ensures r[i].id in st.index && Lookup(st, r[i].id) == r[i] {
      assert r[i] in Stored(st);
      var k, id :| k in st.buckets && id in st.buckets[k] && st.buckets[k][id] == r[i];
      assert Holds(st, k, id);
    }
    assert Distinct(ids) by {
      forall i, j | 0 <= i < j < |ids| ensures ids[i] != ids[j] {
        assert r[i] != r[j];
      }
    }
    assert Elems(ids) == st.index.Keys by {
      forall id | id in st.index ensures id in Elems(ids) {
        assert Holds(st, st.index[id], id);
        assert Lookup(st, id) in Stored(st);
        var i :| 0 <= i < |r| && r[i] == Lookup(st, id);
        assert ids[i] == id;
      }
    }
    DistinctCard(ids);
  }

  // ---------------------------------------------------------------------
  // The one-minute window
  // ---------------------------------------------------------------------

  /** The stream filter of `getSessionsUpdatedLastMinute`: keep, in order, the
      sessions whose most recent lifecycle event is strictly after `cutoff`. */
  function UpdatedAfter(xs: seq<ChargingSession>, cutoff: Time): (r: seq<ChargingSession>)
    ensures forall s :: s in r <==> s in xs && LastEvent(s) > cutoff
    ensures Distinct(xs) ==> Distinct(r)
    ensures |r| <= |xs|
  {
    if xs == [] then []
    else (if LastEvent(xs[0]) > cutoff then [xs[0]] else []) + UpdatedAfter(xs[1..], cutoff)
  }

  /** A timestamp counts as "updated in the last minute" relative to `now` when
      it is strictly after `now` minus sixty seconds and no later than the end
      of the minute of `now`. */
  predicate InWindow(t: Time, now: Time)
  {
    now - NanosPerMinute < t && Key(t) <= Key(now)
  }

  /** What the two bucket lookups of the window query return, as a set: the
      whole bucket of the current minute and the sessions of the bucket one
      minute earlier that were updated strictly after the cutoff. */
  ghost function TwoBucketWindow(st: Store, now: Time): set<ChargingSession>
  {
    BucketContents(st, Key(now)) +
      set s | s in BucketContents(st, Key(now - NanosPerMinute)) && LastEvent(s) > now - NanosPerMinute
  }

  /** In a valid store the sessions of bucket `k` are exactly the stored
      sessions whose most recent lifecycle event lies in minute `k`. */
  lemma BucketIsMinute(st: Store, k: MinuteKey, s: ChargingSession)
    requires Valid(st)
    ensures s in BucketContents(st, k) <==> s in Stored(st) && Key(LastEvent(s)) == k
  {
    if s in BucketContents(st, k) {
      var id :| id in st.buckets[k] && st.buckets[k][id] == s;
      assert Holds(st, k, id);
    }
    if s in Stored(st) && Key(LastEvent(s)) == k {
      var k', id :| k' in st.buckets && id in st.buckets[k'] && st.buckets[k'][id] == s;
      assert Holds(st, k', id);
    }
  }

  /** The window theorem: in a valid store, reading only the bucket of the
      current minute and the one before returns exactly the stored sessions
      whose most recent lifecycle event is strictly after `now` minus sixty
      seconds (and not beyond the current minute). */
  lemma TwoBucketsCoverTheWindow(st: Store, now: Time, s: ChargingSession)
    requires Valid(st)
    ensures s in TwoBucketWindow(st, now) <==> s in Stored(st) && InWindow(LastEvent(s), now)
  {
    var cutoff := now - NanosPerMinute;
    KeyOfMinuteBefore(now);
    BucketIsMinute(st, Key(now), s);
    BucketIsMinute(st, Key(cutoff), s);
    if s in Stored(st) && InWindow(LastEvent(s), now) {
      KeyMonotonic(cutoff, LastEvent(s));
    }
  }

  /** `getSessionsUpdatedLastMinute`, with the clock reading passed in as `now`:
      the whole bucket of the minute of `now` followed by the sessions of the
      bucket of the minute of `now` minus sixty seconds whose most recent
      lifecycle event is strictly after `now` minus sixty seconds. */
  method SessionsUpdatedLastMinute(st: Store, now: Time) returns (r: seq<ChargingSession>)
    ensures Elems(r) == TwoBucketWindow(st, now)
    ensures Valid(st) ==> Distinct(r)
    ensures Valid(st) ==> forall s :: s in r <==> s in Stored(st) && InWindow(LastEvent(s), now)
    ensures Valid(st) ==> multiset(r) <= multiset(Stored(st))
  {
    var currentKey := Key(now);
    var oneMinuteAgo := now - NanosPerMinute;
    var previousKey := Key(oneMinuteAgo);
    var current := ListOfSessions(GetBucket(st, currentKey));
    var previous := ListOfSessions(GetBucket(st, previousKey));
    var filtered := UpdatedAfter(previous, oneMinuteAgo);
    r := current + filtered;
    WindowListing(st, now, current, previous, filtered);
  }

  /** The facts `SessionsUpdatedLastMinute` promises, from those of its parts. */
  lemma WindowListing(st: Store, now: Time, current: seq<ChargingSession>, previous: seq<ChargingSession>,
                      filtered: seq<ChargingSession>)
    requires Elems(current) == BucketContents(st, Key(now))
    requires Elems(previous) == BucketContents(st, Key(now - NanosPerMinute))
    requires Key(now) !in st.buckets ==> current == []
    requires Key(now) in st.buckets && KeyedById(st.buckets[Key(now)]) ==> Distinct(current)
    requires Key(now - NanosPerMinute) !in st.buckets ==> previous == []
    requires Key(now - NanosPerMinute) in st.buckets && KeyedById(st.buckets[Key(now - NanosPerMinute)]) ==> Distinct(previous)
    requires forall s :: s in filtered <==> s in previous && LastEvent(s) > now - NanosPerMinute
    requires Distinct(previous) ==> Distinct(filtered)
    ensures Elems(current + filtered) == TwoBucketWindow(st, now)
    ensures Valid(st) ==> Distinct(current + filtered)
    ensures Valid(st) ==> forall s :: s in current + filtered <==> s in Stored(st) && InWindow(LastEvent(s), now)
    ensures Valid(st) ==> multiset(current + filtered) <= multiset(Stored(st))
  {
    var r := current + filtered;
    var cutoff := now - NanosPerMinute;
    assert Elems(r) == TwoBucketWindow(st, now);
    if Valid(st) {
      KeyOfMinuteBefore(now);
      if Key(now) in st.buckets { ValidBucketsKeyedById(st, Key(now)); }
      if Key(cutoff) in st.buckets { ValidBucketsKeyedById(st, Key(cutoff)); }
      forall s | s in current ensures s !in filtered {
        BucketIsMinute(st, Key(now), s);
        BucketIsMinute(st, Key(cutoff), s);
      }
      DistinctAppend(current, filtered);
      forall s ensures s in r <==> s in Stored(st) && InWindow(LastEvent(s), now) {
        TwoBucketsCoverTheWindow(st, now, s);
      }
      assert Elems(r) <= Stored(st);
      DistinctMultiset(r);
    }
  }
}
