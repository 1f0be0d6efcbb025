/** `getSessionsUpdatedLastMinute` as the source writes it reads the clock
    twice: once for the key of the current minute and once for the cutoff
    sixty seconds back. When the minute turns between the two readings both
    keys name the same bucket, and its recent sessions are listed twice. */
module TwoClockReadings {
  import opened Wrappers
  import opened Collections
  import opened MinuteKeys
  import opened Sessions
  import opened SessionsStore
  import StoreScenarios

  /** The window query with the current-minute key taken from `firstNow` and
      the cutoff from the later reading `secondNow`. In a valid store a session
      occurs once for the current-minute bucket and once more if it also
      passes the filter on the bucket of the cutoff. */
  method SessionsUpdatedLastMinuteAsWritten(st: Store, firstNow: Time, secondNow: Time) returns (r: seq<ChargingSession>)
    ensures Valid(st) ==> forall s ::
      multiset(r)[s] ==
        (if s in BucketContents(st, Key(firstNow)) then 1 else 0) +
        (if s in BucketContents(st, Key(secondNow - NanosPerMinute)) && LastEvent(s) > secondNow - NanosPerMinute then 1 else 0)
  {
    var currentKey := Key(firstNow);
    var oneMinuteAgo := secondNow - NanosPerMinute;
    var previousKey := Key(oneMinuteAgo);
    var current := ListOfSessions(GetBucket(st, currentKey));
    var previous := ListOfSessions(GetBucket(st, previousKey));
    var filtered := UpdatedAfter(previous, oneMinuteAgo);
    r := current + filtered;
    if Valid(st) {
      if currentKey in st.buckets { ValidBucketsKeyedById(st, currentKey); }
      if previousKey in st.buckets { ValidBucketsKeyedById(st, previousKey); }
      forall s ensures multiset(r)[s] ==
        (if s in BucketContents(st, currentKey) then 1 else 0) +
        (if s in BucketContents(st, previousKey) && LastEvent(s) > oneMinuteAgo then 1 else 0)
      {
        DistinctOccurrences(current, s);
        DistinctOccurrences(filtered, s);
      }
    }
  }

  /** A session started one nanosecond into the first minute of the epoch. */
  const Early: ChargingSession := ChargingSession("a", StoreScenarios.Station, 1, None, InProgress)

  /** The counterexample: one session in the registry, the clock read just
      before the minute turns and then just after. The session is listed twice. */
  method DoubleCountExample() returns (r: seq<ChargingSession>)
    ensures multiset(r)[Early] == 2
  {
    var st := AddSession(Empty, "a", StoreScenarios.Station, 1).0;
    assert Valid(st) by {
      forall k, id | Holds(st, k, id) ensures id == "a" && k == 0 {
      }
    }
    assert Key(1) == 0 && Key(NanosPerMinute - 1) == 0 && Key(NanosPerMinute - NanosPerMinute) == 0;
    assert Early in BucketContents(st, 0);
    r := SessionsUpdatedLastMinuteAsWritten(st, NanosPerMinute - 1, NanosPerMinute);
  }

  /** With a single clock reading the two buckets differ, so no session is
      listed twice: the as-written query agrees with `SessionsUpdatedLastMinute`
      exactly when the readings coincide. */
  lemma OneReadingCountsOnce(st: Store, now: Time, s: ChargingSession)
    requires Valid(st)
    ensures
      (if s in BucketContents(st, Key(now)) then 1 else 0) +
      (if s in BucketContents(st, Key(now - NanosPerMinute)) && LastEvent(s) > now - NanosPerMinute then 1 else 0)
      == (if s in TwoBucketWindow(st, now) then 1 else 0)
  {
    KeyOfMinuteBefore(now);
    BucketIsMinute(st, Key(now), s);
    BucketIsMinute(st, Key(now - NanosPerMinute), s);
  }
}

/** `stopSession` as the source writes it, for an id the registry does not
    know: the index lookup yields `null`, the bucket lookup under `null`
    yields `null`, and the entry lookup on that throws a
    `NullPointerException`. The explicit `RuntimeException` is reached only
    when the index names a bucket that lacks the id. The controller turns
    only an `IllegalArgumentException` into NOT_FOUND, so neither reaches the
    caller as NOT_FOUND. */
module UnknownIdStop {
  import opened Wrappers
  import opened MinuteKeys
  import opened Sessions
  import opened SessionsStore
  import opened StoreProperties
  import opened SessionsRestController

  /** How a Java call ends: with a new registry state, or with an exception. */
  datatype JavaOutcome = Returned(st: Store) | ThrowsNullPointer | ThrowsRuntime

  /** `stopSession` as written. */
  function StopSessionAsWritten(st: Store, id: SessionId, stopTime: Time): (r: JavaOutcome)
    ensures r.Returned? <==> id in st.index && Holds(st, st.index[id], id)
    ensures r.Returned? ==> r.st == StopSession(st, id, stopTime).0
    ensures Valid(st) ==> (r.Returned? <==> StopSession(st, id, stopTime).1.Success?)
    ensures Valid(st) && id !in st.index ==> r == ThrowsNullPointer
  {
    if id !in st.index || st.index[id] !in st.buckets then ThrowsNullPointer
    else if id !in st.buckets[st.index[id]] then ThrowsRuntime
    else Returned(StopSession(st, id, stopTime).0)
  }

  /** The stop endpoint as written: an exception other than
      `IllegalArgumentException` escapes the handler (`None`). */
  function StopEndpointAsWritten(st: Store, id: SessionId, now: Time): (r: Option<(Store, Response)>)
    ensures r.None? <==> !StopSessionAsWritten(st, id, now).Returned?
    ensures r.Some? ==> r.value == StopSessionEndpoint(st, id, now)
  {
    match StopSessionAsWritten(st, id, now)
    case Returned(st') => Some((st', Response(Ok, NoBody)))
    case _ => None
  }

  /** The counterexample: stopping any id on a fresh registry escapes the
      handler as written, where the intended answer is NOT_FOUND. */
  lemma UnknownIdEscapes(id: SessionId, now: Time)
    ensures StopSessionAsWritten(Empty, id, now) == ThrowsNullPointer
    ensures StopEndpointAsWritten(Empty, id, now).None?
    ensures StopSessionEndpoint(Empty, id, now).1.status == HttpStatus.NotFound
  {
    EmptyIsValid();
  }
}
