/** The request scenarios of `SessionsRestControllerTest`, replayed on the
    model. The test mocks the registry; here the real model stands behind
    the controller, started empty. */
module ControllerScenarios {
  import opened Wrappers
  import opened MinuteKeys
  import opened Sessions
  import opened SessionsStore
  import opened StoreProperties
  import opened SessionsRestController
  import StoreScenarios
  const ValidTimestamp: string := "2019-05-06T19:00:20.529"
  const InvalidTimestamp: string := "2019-99-99T19:00:20.529"

  /** A valid submit answers CREATED and echoes the new id, the station and
      the parsed start time. */
  lemma ValidSubmitScenario(parse: string -> Option<Time>, startedAt: Time, freshId: SessionId)
    requires parse(ValidTimestamp) == Some(startedAt)
    ensures SubmitSession(Empty, SubmitRequest(Some(StoreScenarios.Station), Some(ValidTimestamp)), parse, freshId).1
      == Response(Created, Submitted(freshId, StoreScenarios.Station, startedAt))
  {
  }

  /** An empty station id, or an empty timestamp, is a BAD_REQUEST and the
      registry stays empty. */
  lemma EmptyFieldScenario(parse: string -> Option<Time>, freshId: SessionId)
    ensures SubmitSession(Empty, SubmitRequest(Some(""), Some(ValidTimestamp)), parse, freshId)
      == (Empty, Response(BadRequest, RestError(EmptyFieldsMessage)))
    ensures SubmitSession(Empty, SubmitRequest(Some(StoreScenarios.Station), Some("")), parse, freshId)
      == (Empty, Response(BadRequest, RestError(EmptyFieldsMessage)))
  {
  }

  /** A timestamp the parser rejects is a BAD_REQUEST and the registry stays empty. */
  lemma WrongFormatScenario(parse: string -> Option<Time>, freshId: SessionId)
    requires parse(InvalidTimestamp) == None
    ensures SubmitSession(Empty, SubmitRequest(Some(StoreScenarios.Station), Some(InvalidTimestamp)), parse, freshId)
      == (Empty, Response(BadRequest, RestError(UnparsableMessage)))
  {
  }

  /** Stopping a session the registry holds answers OK; stopping an id it
      does not know answers NOT_FOUND with the id in the message. */
  lemma StopScenario(id: SessionId, other: SessionId, startedAt: Time, now: Time)
    requires id != other
    ensures var st := AddSession(Empty, id, StoreScenarios.Station, startedAt).0;
      && StopSessionEndpoint(st, id, now).1 == Response(Ok, NoBody)
      && StopSessionEndpoint(st, other, now) == (st, Response(HttpStatus.NotFound, RestError(NotFoundMessage(other))))
  {
    EmptyIsValid();
    var st := AddSession(Empty, id, StoreScenarios.Station, startedAt).0;
    assert Holds(st, Key(startedAt), id);
  }

  /** Two in-progress and two stopped sessions summarise to 4, 2 and 2. */
  lemma TwoAndTwoSummaryScenario(a: ChargingSession, b: ChargingSession, c: ChargingSession, d: ChargingSession)
    requires a.status == InProgress && b.status == InProgress
    requires c.status == Stopped && d.status == Stopped
    ensures AssembleRestSummary([a, b, c, d]) == RestSummary(4, 2, 2)
  {
    assert [a, b, c, d][1..] == [b, c, d];
    assert [b, c, d][1..] == [c, d];
    assert [c, d][1..] == [d];
    assert [d][1..] == [];
    assert CountWithStatus([], InProgress) == 0 && CountWithStatus([], Stopped) == 0;
    assert CountWithStatus([d], InProgress) == 0 && CountWithStatus([d], Stopped) == 1;
    assert CountWithStatus([c, d], InProgress) == 0 && CountWithStatus([c, d], Stopped) == 2;
    assert CountWithStatus([b, c, d], InProgress) == 1 && CountWithStatus([b, c, d], Stopped) == 2;
  }

  /** No session in the window summarises to 0, 0 and 0. */
  lemma EmptySummaryScenario()
    ensures AssembleRestSummary([]) == RestSummary(0, 0, 0)
  {
  }
}
