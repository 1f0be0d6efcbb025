/** Timestamps and the per-minute bucket key.

    A `LocalDateTime` is modelled as a whole number of nanoseconds since a
    fixed local epoch. Local date-times have no zone and no leap seconds, so
    every minute is exactly sixty seconds long and truncating the ISO text
    `yyyy-MM-ddTHH:mm:ss...` to its first sixteen characters keeps exactly the
    number of whole minutes since the epoch, rounded down. */
module MinuteKeys {

  /** Nanoseconds since the local epoch; negative before it. */
  type Time = int

  /** Whole minutes since the local epoch, rounded towards minus infinity. */
  type MinuteKey = int

  const NanosPerSecond: int := 1_000_000_000
  const NanosPerMinute: int := 60 * NanosPerSecond

  /** The first instant of minute `m`. */
  function MinuteStart(m: MinuteKey): Time
  {
    m * NanosPerMinute
  }

  /** `t` lies in minute `m`, i.e. in the half-open interval [start of m, start of m + 1). */
  predicate InMinute(t: Time, m: MinuteKey)
  {
    MinuteStart(m) <= t < MinuteStart(m + 1)
  }

  /** The bucket key of a timestamp (`getDateStringWithoutSeconds`): the minute containing it. */
  function Key(t: Time): (k: MinuteKey)
    ensures InMinute(t, k)
  {
    t / NanosPerMinute
  }

  /** A timestamp lies in exactly one minute, and that minute is its key. */
  lemma KeyIsTheMinute(t: Time, m: MinuteKey)
    ensures InMinute(t, m) <==> Key(t) == m
  {
  }

  /** Two timestamps share a bucket exactly when some minute contains both of them. */
  ghost predicate SameMinute(t: Time, u: Time)
  {
    exists m: MinuteKey :: InMinute(t, m) && InMinute(u, m)
  }

  /** Keys are equal exactly for timestamps in the same minute. */
  lemma SameKeyIffSameMinute(t: Time, u: Time)
    ensures Key(t) == Key(u) <==> SameMinute(t, u)
  {
    if SameMinute(t, u) {
      var m: MinuteKey :| InMinute(t, m) && InMinute(u, m);
      KeyIsTheMinute(t, m);
      KeyIsTheMinute(u, m);
    } else {
      assert !(InMinute(t, Key(t)) && InMinute(u, Key(t)));
    }
  }

  /** Going back sixty seconds always lands in the previous bucket, so the two
      keys the window query reads are consecutive and never equal. */
  lemma KeyOfMinuteBefore(t: Time)
    ensures Key(t - NanosPerMinute) == Key(t) - 1
    ensures Key(t - NanosPerMinute) != Key(t)
  {
    KeyIsTheMinute(t - NanosPerMinute, Key(t) - 1);
  }

  /** Keys never decrease as time goes forward. */
  lemma KeyMonotonic(t: Time, u: Time)
    requires t <= u
    ensures Key(t) <= Key(u)
  {
  }
}
