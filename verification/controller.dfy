/** The request-handling decisions of `SessionsRestController`, without the
    HTTP plumbing: which status each request yields, when the registry is
    touched, and how the summary counts are assembled. */
module SessionsRestController {
  import opened Wrappers
  import opened Collections
  import opened MinuteKeys
  import opened Sessions
  import opened SessionsStore

  /** The JSON body of a submit request; a missing field reads as `null` (`None`). */
  datatype SubmitRequest = SubmitRequest(stationId: Option<string>, timestamp: Option<string>)

  /** The HTTP statuses the controller answers with. */
  datatype HttpStatus = Ok | Created | BadRequest | NotFound

  /** Response bodies: nothing, a `RestError` message, or a `RestSubmitSessionResponse`. */
  datatype Body = NoBody | RestError(message: string) | Submitted(id: SessionId, stationId: string, timestamp: Time)

  datatype Response = Response(status: HttpStatus, body: Body)

  /** The counts of `RestSummary`. */
  datatype RestSummary = RestSummary(totalCount: int, startedCount: int, stoppedCount: int)

  const EmptyFieldsMessage: string := "Timestamp and stationId cannot be empty"
  const UnparsableMessage: string := "Cannot parse timestamp"

  function NotFoundMessage(id: string): string
  {
    "No sessions found with id=" + id
  }

  /** Spring's `StringUtils.isEmpty`: `null` or the empty string. */
  predicate IsEmpty(s: Option<string>)
  {
    s.None? || s.value == ""
  }

  // ---------------------------------------------------------------------
  // Submit and stop
  // ---------------------------------------------------------------------

  /** `submitSession`: reject an empty field or an unparsable timestamp with
      BAD_REQUEST without touching the registry; otherwise add a session
      (with the fresh id `freshId`) and answer CREATED with its id, station
      and start time. `parse` stands for ISO-8601 local date-time parsing,
      `None` for a parse that throws. */
  function SubmitSession(st: Store, req: SubmitRequest, parse: string -> Option<Time>, freshId: SessionId): (r: (Store, Response))
    requires freshId !in st.index
    ensures r.1.status == BadRequest || r.1.status == Created
    ensures r.1.status == BadRequest <==>
      IsEmpty(req.timestamp) || IsEmpty(req.stationId) || parse(req.timestamp.value).None?
    ensures r.1.status == BadRequest ==> r.0 == st
    ensures IsEmpty(req.timestamp) || IsEmpty(req.stationId) ==> r.1.body == RestError(EmptyFieldsMessage)
    ensures !IsEmpty(req.timestamp) && !IsEmpty(req.stationId) && parse(req.timestamp.value).None? ==>
      r.1.body == RestError(UnparsableMessage)
    ensures r.1.status == Created ==>
      var startedAt := parse(req.timestamp.value).value;
      && r.1.body == Submitted(freshId, req.stationId.value, startedAt)
      && r.0 == AddSession(st, freshId, req.stationId.value, startedAt).0
      && Holds(r.0, Key(startedAt), freshId)
      && r.0.buckets[Key(startedAt)][freshId].status == InProgress
  {
    if IsEmpty(req.timestamp) || IsEmpty(req.stationId) then
      (st, Response(BadRequest, RestError(EmptyFieldsMessage)))
    else
      match parse(req.timestamp.value)
      case None => (st, Response(BadRequest, RestError(UnparsableMessage)))
      case Some(startedAt) =>
        var (st', session) := AddSession(st, freshId, req.stationId.value, startedAt);
        (st', Response(Created, Submitted(session.id, session.stationId, session.startedAt)))
  }

  /** `stopSession` for the path id `id` at clock reading `now`: NOT_FOUND
      with an error message when the registry does not know the id (and the
      registry is unchanged), OK with an empty body when it stopped it. */
  function StopSessionEndpoint(st: Store, id: string, now: Time): (r: (Store, Response))
    ensures r.1.status == HttpStatus.NotFound || r.1.status == Ok
    ensures Valid(st) ==> (r.1.status == HttpStatus.NotFound <==> id !in st.index)
    ensures r.1.status == HttpStatus.NotFound ==> r.0 == st && r.1.body == RestError(NotFoundMessage(id))
    ensures r.1.status == Ok ==> r.1.body == NoBody
    ensures r.0 == StopSession(st, id, now).0
    ensures r.1.status == Ok && Valid(st) ==>
      && Holds(r.0, Key(now), id)
      && r.0.buckets[Key(now)][id].status == Stopped
      && r.0.buckets[Key(now)][id].stoppedAt == Some(now)
  {
    var (st', outcome) := StopSession(st, id, now);
    match outcome
    case Failure(_) => (st', Response(HttpStatus.NotFound, RestError(NotFoundMessage(id))))
    case Success(_) => (st', Response(Ok, NoBody))
  }

  // ---------------------------------------------------------------------
  // Summary
  // ---------------------------------------------------------------------

  /** The number of sessions in `xs` with status `status`. */
  function CountWithStatus(xs: seq<ChargingSession>, status: Status): nat
  {
    if xs == [] then 0
    else (if xs[0].status == status then 1 else 0) + CountWithStatus(xs[1..], status)
  }

  /** `Map.getOrDefault`. */
  function GetOrDefault(m: map<Status, nat>, k: Status, default: nat): nat
  {
    if k in m then m[k] else default
  }

  /** `groupingBy(getStatus, counting())`, accumulated from left to right into
      `acc`: a status that never occurs gets no entry at all. */
  function GroupByStatus(xs: seq<ChargingSession>, acc: map<Status, nat>): map<Status, nat>
  {
    if xs == [] then acc
    else GroupByStatus(xs[1..], acc[xs[0].status := GetOrDefault(acc, xs[0].status, 0) + 1])
  }

  /** The grouped count of a status, read with default 0, is its number of occurrences. */
  lemma {:induction false} GroupByStatusCounts(xs: seq<ChargingSession>, acc: map<Status, nat>, status: Status)
    ensures GetOrDefault(GroupByStatus(xs, acc), status, 0) == GetOrDefault(acc, status, 0) + CountWithStatus(xs, status)
  {
    if xs != [] {
      GroupByStatusCounts(xs[1..], acc[xs[0].status := GetOrDefault(acc, xs[0].status, 0) + 1], status);
    }
  }

  /** Grouping introduces an entry exactly for the statuses that occur. */
  lemma {:induction false} GroupByStatusKeys(xs: seq<ChargingSession>, acc: map<Status, nat>, status: Status)
    ensures status in GroupByStatus(xs, acc) <==> status in acc || exists s :: s in xs && s.status == status
  {
    if xs != [] {
      GroupByStatusKeys(xs[1..], acc[xs[0].status := GetOrDefault(acc, xs[0].status, 0) + 1], status);
      assert forall s :: s in xs <==> s == xs[0] || s in xs[1..];
    }
  }

  /** A session is either in progress or stopped, so the two counts add up to the length. */
  lemma {:induction false} StatusCountsAddUp(xs: seq<ChargingSession>)
    ensures CountWithStatus(xs, InProgress) + CountWithStatus(xs, Stopped) == |xs|
  {
    if xs != [] {
      StatusCountsAddUp(xs[1..]);
    }
  }

  /** `assembleRestSummary`: the total, and the counts per status with 0 for
      a status that does not occur. */
  function AssembleRestSummary(xs: seq<ChargingSession>): (r: RestSummary)
    ensures r.totalCount == |xs|
    ensures r.startedCount == CountWithStatus(xs, InProgress)
    ensures r.stoppedCount == CountWithStatus(xs, Stopped)
    ensures r.startedCount + r.stoppedCount == r.totalCount
  {
    var byStatus := GroupByStatus(xs, map[]);
    GroupByStatusCounts(xs, map[], InProgress);
    GroupByStatusCounts(xs, map[], Stopped);
    StatusCountsAddUp(xs);
    RestSummary(|xs|, GetOrDefault(byStatus, InProgress, 0), GetOrDefault(byStatus, Stopped, 0))
  }

  /** In a repetition-free listing the count of a status is the number of distinct sessions with it. */
  lemma {:induction false} CountIsCardinality(xs: seq<ChargingSession>, status: Status)
    requires Distinct(xs)
    ensures CountWithStatus(xs, status) == |set s | s in xs && s.status == status|
  {
    if xs != [] {
      CountIsCardinality(xs[1..], status);
      var rest := set s | s in xs[1..] && s.status == status;
      assert xs[0] !in xs[1..];
      if xs[0].status == status {
        assert (set s | s in xs && s.status == status) == {xs[0]} + rest;
      } else {
        assert (set s | s in xs && s.status == status) == rest;
      }
    }
  }

  /** The summary of a repetition-free listing of a set counts the set's
      members, overall and per status. */
  lemma SummaryOfDistinct(xs: seq<ChargingSession>, sessions: set<ChargingSession>)
    requires Distinct(xs) && Elems(xs) == sessions
    ensures var r := AssembleRestSummary(xs);
      && r.totalCount == |sessions|
      && r.startedCount == |set s | s in sessions && s.status == InProgress|
      && r.stoppedCount == |set s | s in sessions && s.status == Stopped|
  {
    DistinctCard(xs);
    CountIsCardinality(xs, InProgress);
    CountIsCardinality(xs, Stopped);
    assert (set s | s in xs && s.status == InProgress) == (set s | s in sessions && s.status == InProgress);
    assert (set s | s in xs && s.status == Stopped) == (set s | s in sessions && s.status == Stopped);
  }

  /** The sessions of a valid store updated within the last minute before `now`. */
  ghost function RecentSessions(st: Store, now: Time): set<ChargingSession>
  {
    set s | s in Stored(st) && InWindow(LastEvent(s), now)
  }

  /** `getSessionsSummary` at clock reading `now`: the window query, summarised.
      In a valid store the counts are those of the distinct sessions updated
      within the last minute, overall and per status. */
  method GetSessionsSummary(st: Store, now: Time) returns (r: RestSummary)
    ensures r.startedCount + r.stoppedCount == r.totalCount
    ensures Valid(st) ==> r.totalCount == |RecentSessions(st, now)|
    ensures Valid(st) ==> r.startedCount == |set s | s in RecentSessions(st, now) && s.status == InProgress|
    ensures Valid(st) ==> r.stoppedCount == |set s | s in RecentSessions(st, now) && s.status == Stopped|
  {
    var sessions := SessionsUpdatedLastMinute(st, now);
    r := AssembleRestSummary(sessions);
    if Valid(st) {
      assert Elems(sessions) == RecentSessions(st, now);
      SummaryOfDistinct(sessions, RecentSessions(st, now));
    }
  }
}
