/** The charging-session record (`ChargingSession`). */
module Sessions {
  import opened Wrappers
  import opened MinuteKeys

  /** Session ids are the text of a UUID; callers pass them as strings. */
  type SessionId = string

  datatype Status = InProgress | Stopped

  datatype ChargingSession = ChargingSession(
    id: SessionId,
    stationId: string,
    startedAt: Time,
    stoppedAt: Option<Time>,
    status: Status)

  /** The time of the most recent lifecycle event: the stop time once set, else the start time. */
  function LastEvent(s: ChargingSession): Time
  {
    match s.stoppedAt
    case Some(stop) => stop
    case None => s.startedAt
  }

  /** A stop time is recorded exactly for stopped sessions. */
  predicate WellFormed(s: ChargingSession)
  {
    s.stoppedAt.Some? <==> s.status == Stopped
  }
}
