# sessions-store in Dafny

A model of the in-memory charging-session registry of `sessions-store` and of
the decisions its REST controller takes, with proofs of the properties the
registry and its tests rely on.

The registry (`SessionsStore`) keeps two maps that must stay in step:

- the **buckets**: minute key → (session id → session);
- the **index**: session id → the minute key of the bucket that holds it.

A session is filed under the minute of its most recent lifecycle event: its
start when it is submitted, its stop once it is stopped. The query "sessions
updated in the last minute" reads only two buckets, the current minute's and
the previous one's, and filters the latter on a cutoff sixty seconds back.

Modules, one per file:

| file | module | what it holds |
|---|---|---|
| `wrappers.dfy` | `Wrappers` | `Option` and `Result` |
| `collections.dfy` | `Collections` | repetition-free sequences, their element sets and multisets |
| `minutes.dfy` | `MinuteKeys` | time as nanoseconds, the minute key and its laws |
| `session.dfy` | `Sessions` | the `ChargingSession` record |
| `store.dfy` | `SessionsStore` | the registry state, its invariant, add, stop, list-all, the window query |
| `properties.dfy` | `StoreProperties` | invariant preservation, frame lemmas, arbitrary command sequences |
| `controller.dfy` | `SessionsRestController` | submit and stop outcomes, the summary counts |
| `scenarios.dfy` | `StoreScenarios` | the registry tests replayed on the model |
| `controller_scenarios.dfy` | `ControllerScenarios` | the controller tests replayed on the model |
| `findings.dfy` | `TwoClockReadings`, `UnknownIdStop` | the source as written, where it departs from its intended behaviour |

Modelling choices:

- A `LocalDateTime` is an `int` count of nanoseconds since a local epoch. Local date-times have no zone and no leap seconds. So cutting the ISO text to `yyyy-MM-ddTHH:mm` keeps the whole number of minutes since the epoch, rounded down. The key is `t / NanosPerMinute`. Dafny's division rounds down for a positive divisor, and so does the truncation, even before the epoch.
- The registry is an immutable value. Add and stop are pure functions from one state to the next. The three listing operations are methods that visit map entries in an order chosen by `:|`, because `HashMap` iteration order is unspecified. Their contracts speak of sets and multisets, never of positions.
- The invariant `Valid` has three parts. Every indexed id is held in the bucket the index names. Every bucket entry is indexed under that bucket. Every entry is filed under its own id, is well formed (a stop time exactly when stopped), and sits in the bucket of the minute of its last event.
- The callers' interface is followed where the store's own signatures disagree with it. `AddSession` takes a station and a time and returns the new session; the fresh id is a parameter with a freshness precondition, standing for `UUID.randomUUID`. `StopSession` takes the id as a string and returns `Failure(NotFound)` for an id it cannot find, leaving the state unchanged. The source file itself declares `addSession(ChargingSession, LocalDateTime)` and `stopSession(UUID, ...)`, and fails differently on an unknown id (see Findings).
- The clock is a parameter (`now`, the stop time). ISO-8601 parsing is a parameter `parse: string -> Option<Time>`, where `None` stands for a parse that throws.
- Nothing in the code stops the two lookups of the window query from reading the same bucket, while the ten-session test (`SessionsStoreApplicationTests.java:86`) expects every session once. With one clock reading the two keys never coincide (`KeyOfMinuteBefore`), so the model takes one reading. With the code's two readings they can (see Findings).

## Model

| member | source | states |
|---|---|---|
| MinuteKeys.Key | src/main/java/com/example/sessionsstore/model/SessionsStore.java:23-25 | the key of a timestamp is a minute that contains it |
| MinuteKeys.KeyIsTheMinute | src/main/java/com/example/sessionsstore/model/SessionsStore.java:23-25 | a timestamp lies in minute `m` exactly when its key is `m`, so the key is unique |
| MinuteKeys.SameKeyIffSameMinute | src/main/java/com/example/sessionsstore/model/SessionsStore.java:23-25 | two timestamps get the same key exactly when some minute contains both, i.e. they agree up to the minute |
| MinuteKeys.KeyOfMinuteBefore | src/main/java/com/example/sessionsstore/model/SessionsStore.java:57-59 | the key sixty seconds back is always the key of `t` minus one, so the two keys the window reads differ |
| MinuteKeys.KeyMonotonic | src/main/java/com/example/sessionsstore/model/SessionsStore.java:23-25 | later timestamps never get smaller keys |
| SessionsStore.Put | src/main/java/com/example/sessionsstore/model/SessionsStore.java:27-31 | the session is filed under its id in bucket `k` (created if absent), the index points at `k`, and every other entry is unchanged |
| SessionsStore.AddSession | src/main/java/com/example/sessionsstore/model/SessionsStore.java:18-21 | the new session carries the id, station and start time, is IN_PROGRESS without stop time, is filed in the bucket of its start minute, the index points there, and no other entry changes |
| SessionsStore.StopSession | src/main/java/com/example/sessionsstore/model/SessionsStore.java:33-46 | fails with NotFound, state unchanged, exactly when the index or the named bucket lacks the id (in a valid store: exactly when the id is unknown); on success the session keeps id, station and start, becomes STOPPED with `stoppedAt` set, moves to the bucket of the stop minute and no other, the index size is unchanged and every other entry is untouched |
| SessionsStore.BucketValues | src/main/java/com/example/sessionsstore/model/SessionsStore.java:77 | `values()` of a bucket: one element per key, in some order, each the entry under its key |
| SessionsStore.BucketListing | src/main/java/com/example/sessionsstore/model/SessionsStore.java:77 | such a listing has the bucket's size and values, and no repetition when entries are keyed by their own ids |
| SessionsStore.ListOfSessions | src/main/java/com/example/sessionsstore/model/SessionsStore.java:75-81 | an absent bucket gives the empty list; a present one gives its values, as many as it has entries, repetition-free when keyed by id |
| SessionsStore.ValidBucketsKeyedById | src/main/java/com/example/sessionsstore/model/SessionsStore.java:29 | in a valid store every bucket holds each session under its own id |
| SessionsStore.AllSessions | src/main/java/com/example/sessionsstore/model/SessionsStore.java:48-54 | the listing holds exactly the stored sessions; in a valid store each once, its length is the index size, and its multiset is the set of stored sessions |
| SessionsStore.AppendBucket | src/main/java/com/example/sessionsstore/model/SessionsStore.java:50-52 | appending one bucket's values extends the listing by exactly that bucket's entries |
| SessionsStore.ListingOfAllBuckets | src/main/java/com/example/sessionsstore/model/SessionsStore.java:48-54 | a listing of every bucket's entries holds exactly the stored sessions, without repetition in a valid store |
| SessionsStore.StoredCount | src/main/java/com/example/sessionsstore/model/SessionsStore.java:15-16 | in a valid store the bucket entries and the index have the same number of ids |
| SessionsStore.UpdatedAfter | src/main/java/com/example/sessionsstore/model/SessionsStore.java:65-67 | the filter keeps exactly the sessions whose last event is strictly after the cutoff, never adds repetition, never lengthens |
| SessionsStore.BucketIsMinute | src/main/java/com/example/sessionsstore/model/SessionsStore.java:27-31 | in a valid store bucket `k` holds exactly the stored sessions whose last event lies in minute `k` |
| SessionsStore.TwoBucketsCoverTheWindow | src/main/java/com/example/sessionsstore/model/SessionsStore.java:56-73 | in a valid store the current bucket plus the filtered previous bucket are exactly the stored sessions whose last event is after `now` minus sixty seconds and not beyond the current minute |
| SessionsStore.SessionsUpdatedLastMinute | src/main/java/com/example/sessionsstore/model/SessionsStore.java:56-73 | returns the two-bucket window; in a valid store without repetition, exactly the sessions updated in the last minute, and a sub-multiset of everything stored |
| SessionsStore.WindowListing | src/main/java/com/example/sessionsstore/model/SessionsStore.java:69-72 | the concatenation of the two partial lists has the promised contents, no repetition and is contained in the stored sessions |
| StoreProperties.EmptyIsValid | src/main/java/com/example/sessionsstore/model/SessionsStore.java:15-16 | a fresh registry satisfies the invariant and holds nothing |
| StoreProperties.ExactlyOneBucket | src/main/java/com/example/sessionsstore/model/SessionsStore.java:40-45 | in a valid store no id is in two buckets |
| StoreProperties.ReplaceKeepsValid | src/main/java/com/example/sessionsstore/model/SessionsStore.java:27-31 | filing a well-formed session under its own id in the bucket of its last event, and nowhere else, keeps the invariant |
| StoreProperties.AddPreservesValid | src/main/java/com/example/sessionsstore/model/SessionsStore.java:18-31 | add keeps the invariant, grows the index by one and adds exactly the new session to the stored ones |
| StoreProperties.StopPreservesValid | src/main/java/com/example/sessionsstore/model/SessionsStore.java:33-46 | stop keeps the invariant and the index size; on success the stopped session replaces the old one among the stored ones |
| StoreProperties.StoredAfterPut | src/main/java/com/example/sessionsstore/model/SessionsStore.java:27-31 | after filing `s` under `id` the stored sessions are the old ones except the entry under `id`, plus `s` |
| StoreProperties.StoredWithoutIndexed | src/main/java/com/example/sessionsstore/model/SessionsStore.java:40-41 | in a valid store, leaving out the entry of an indexed id removes exactly its session |
| StoreProperties.StoredWithoutFresh | src/main/java/com/example/sessionsstore/model/SessionsStore.java:18-20 | leaving out an unindexed id removes nothing |
| StoreProperties.AddLookups | src/main/java/com/example/sessionsstore/model/SessionsStore.java:18-31 | through the index, add registers the new session under its id and every other session reads as before |
| StoreProperties.StopLookups | src/main/java/com/example/sessionsstore/model/SessionsStore.java:33-46 | through the index, stopping a known id succeeds, yields its stopped copy, and every other session reads as before |
| StoreProperties.StopKeepsStopped | src/main/java/com/example/sessionsstore/model/SessionsStore.java:42-45 | a stopped session stays present and stopped across any stop |
| StoreProperties.AddKeepsStopped | src/main/java/com/example/sessionsstore/model/SessionsStore.java:18-31 | a stopped session stays present and stopped across an add |
| StoreProperties.ApplyPreservesValid | src/main/java/com/example/sessionsstore/model/SessionsStore.java:18-46 | one submit or stop keeps the invariant; a submit grows the index by one, a stop leaves its size alone |
| StoreProperties.ApplyKeepsStopped | src/main/java/com/example/sessionsstore/model/SessionsStore.java:18-46 | one submit or stop keeps a stopped session present and stopped |
| StoreProperties.RunKeepsValid | src/main/java/com/example/sessionsstore/model/SessionsStore.java:18-46 | any admissible sequence of submits and stops keeps the invariant and grows the index by exactly the number of submits |
| StoreProperties.RunFromEmpty | src/test/java/com/example/sessionsstore/SessionsStoreApplicationTests.java:27-56 | from a fresh registry, the registry holds one session per submit |
| StoreProperties.RunKeepsStopped | src/main/java/com/example/sessionsstore/model/SessionsStore.java:33-46 | after any admissible commands a stopped session is still present and stopped |
| SessionsRestController.SubmitSession | src/main/java/com/example/sessionsstore/controller/SessionsRestController.java:35-49 | BAD_REQUEST exactly for an empty field or an unparsable timestamp, with the registry untouched, the empty-field message for empty fields and the parse message for an unparsable timestamp; otherwise CREATED, echoing the new id, station and parsed start, with the registry as after add |
| SessionsRestController.StopSessionEndpoint | src/main/java/com/example/sessionsstore/controller/SessionsRestController.java:51-59 | NOT_FOUND with the id in the message and the registry unchanged, in a valid store exactly for an unknown id; otherwise OK with an empty body and the session stopped at `now`; in every case the registry is the one the store's stop leaves |
| SessionsRestController.GroupByStatusCounts | src/main/java/com/example/sessionsstore/controller/SessionsRestController.java:72 | grouping by status counts, per status, the sessions with it |
| SessionsRestController.GroupByStatusKeys | src/main/java/com/example/sessionsstore/controller/SessionsRestController.java:72 | grouping has an entry exactly for the statuses that occur |
| SessionsRestController.StatusCountsAddUp | src/main/java/com/example/sessionsstore/controller/SessionsRestController.java:72-73 | with two statuses, the two counts add up to the length |
| SessionsRestController.AssembleRestSummary | src/main/java/com/example/sessionsstore/controller/SessionsRestController.java:71-74 | total is the length; started and stopped are the counts per status, 0 for an absent status; started plus stopped is the total |
| SessionsRestController.CountIsCardinality | src/main/java/com/example/sessionsstore/controller/SessionsRestController.java:72-73 | in a repetition-free list the count of a status is the number of distinct sessions with it |
| SessionsRestController.SummaryOfDistinct | src/main/java/com/example/sessionsstore/controller/SessionsRestController.java:71-74 | the summary of a repetition-free listing of a set counts that set, overall and per status |
| SessionsRestController.GetSessionsSummary | src/main/java/com/example/sessionsstore/controller/SessionsRestController.java:66-69 | started plus stopped is the total; in a valid store the counts are those of the distinct sessions updated in the last minute, overall and per status |
| StoreScenarios.StoredAreIndexed | src/main/java/com/example/sessionsstore/model/SessionsStore.java:29-30 | in a valid store every stored session is indexed under its own id |
| StoreScenarios.CreateInProgress | src/test/java/com/example/sessionsstore/SessionsStoreApplicationTests.java:109-111 | the test helper adds an in-progress session and leaves the others as they were |
| StoreScenarios.CreateStopped | src/test/java/com/example/sessionsstore/SessionsStoreApplicationTests.java:113-117 | the test helper adds then stops a session, which ends stopped at its stop time, and leaves the others as they were |
| StoreScenarios.StopKnown | src/test/java/com/example/sessionsstore/SessionsStoreApplicationTests.java:50-51 | stopping a held id leaves it stopped at the stop time, keeps the index size, and leaves the others as they were |
| StoreScenarios.StoredFromLookups | src/main/java/com/example/sessionsstore/model/SessionsStore.java:15-16 | a valid registry whose index holds exactly the listed ids, each leading to its session, stores exactly those sessions |
| StoreScenarios.Seed | src/test/java/com/example/sessionsstore/SessionsStoreApplicationTests.java:71-81 | creating listed sessions one by one through add and stop gives a valid registry storing exactly them |
| StoreScenarios.TenSessionsInWindow | src/test/java/com/example/sessionsstore/SessionsStoreApplicationTests.java:87-96 | of the ten test sessions exactly those at positions 0, 1, 4, 5, 6 and 8 were updated in the last minute |
| StoreScenarios.WindowPattern | src/test/java/com/example/sessionsstore/SessionsStoreApplicationTests.java:87-96 | a listing of the ten sessions in the window contains exactly those six |
| StoreScenarios.WindowCount | src/test/java/com/example/sessionsstore/SessionsStoreApplicationTests.java:86 | such a listing without repetition has six entries |
| StoreScenarios.TenSessionScenario | src/test/java/com/example/sessionsstore/SessionsStoreApplicationTests.java:70-97 | seeding the ten sessions, list-all gives ten and the window query gives the six expected ones and none of the other four |
| StoreScenarios.EmptyStoreScenario | src/test/java/com/example/sessionsstore/SessionsStoreApplicationTests.java:63-67 | listing a fresh registry gives the empty list |
| StoreScenarios.AddScenario | src/test/java/com/example/sessionsstore/SessionsStoreApplicationTests.java:27-43 | one add lists one in-progress session, a second add lists two |
| StoreScenarios.StopBothScenario | src/test/java/com/example/sessionsstore/SessionsStoreApplicationTests.java:45-56 | two sessions added a minute apart and both stopped are listed as two, both stopped |
| StoreScenarios.TwoStopped | src/test/java/com/example/sessionsstore/SessionsStoreApplicationTests.java:53-55 | a valid registry with two stopped ids has two sessions, all stopped |
| StoreScenarios.OnlyStopped | src/test/java/com/example/sessionsstore/SessionsStoreApplicationTests.java:55 | when every indexed session is stopped, every stored one is |
| StoreScenarios.UnknownIdScenario | src/test/java/com/example/sessionsstore/SessionsStoreApplicationTests.java:58-61 | stopping any id on a fresh registry fails with NotFound and changes nothing |
| StoreScenarios.StaleWindowScenario | src/test/java/com/example/sessionsstore/SessionsStoreApplicationTests.java:99-107 | with only sessions last touched two minutes ago, the window query is empty |
| ControllerScenarios.ValidSubmitScenario | src/test/java/com/example/sessionsstore/controller/SessionsRestControllerTest.java:41-56 | a valid submit answers CREATED echoing id, station and parsed start |
| ControllerScenarios.EmptyFieldScenario | src/test/java/com/example/sessionsstore/controller/SessionsRestControllerTest.java:58-76 | an empty station or timestamp answers BAD_REQUEST and leaves the registry empty |
| ControllerScenarios.WrongFormatScenario | src/test/java/com/example/sessionsstore/controller/SessionsRestControllerTest.java:78-86 | an unparsable timestamp answers BAD_REQUEST and leaves the registry empty |
| ControllerScenarios.StopScenario | src/test/java/com/example/sessionsstore/controller/SessionsRestControllerTest.java:88-100 | stopping a held id answers OK with no body; an unknown id answers NOT_FOUND with the id in the message and changes nothing |
| ControllerScenarios.TwoAndTwoSummaryScenario | src/test/java/com/example/sessionsstore/controller/SessionsRestControllerTest.java:115-130 | two in-progress and two stopped sessions summarise to 4, 2 and 2 |
| ControllerScenarios.EmptySummaryScenario | src/test/java/com/example/sessionsstore/controller/SessionsRestControllerTest.java:132-142 | an empty window summarises to 0, 0 and 0 |
| TwoClockReadings.SessionsUpdatedLastMinuteAsWritten | src/main/java/com/example/sessionsstore/model/SessionsStore.java:56-73 | with the key from one clock reading and the cutoff from a later one, a session occurs once per bucket whose part of the query admits it |
| TwoClockReadings.DoubleCountExample | src/main/java/com/example/sessionsstore/model/SessionsStore.java:57-58 | readings one nanosecond apart across a minute boundary list a single stored session twice |
| TwoClockReadings.OneReadingCountsOnce | src/main/java/com/example/sessionsstore/model/SessionsStore.java:56-73 | with one reading, each session occurs at most once, exactly when it is in the window |
| UnknownIdStop.StopSessionAsWritten | src/main/java/com/example/sessionsstore/model/SessionsStore.java:33-46 | returns a new state exactly when the index names a bucket holding the id, and then the state `StopSession` gives; an unknown id throws a null-pointer exception |
| UnknownIdStop.StopEndpointAsWritten | src/main/java/com/example/sessionsstore/controller/SessionsRestController.java:51-59 | any exception from the store escapes the handler, which catches only `IllegalArgumentException`; otherwise the response is the corrected endpoint's |
| UnknownIdStop.UnknownIdEscapes | src/test/java/com/example/sessionsstore/controller/SessionsRestControllerTest.java:94-100 | stopping an unknown id throws a null-pointer exception that escapes the handler, where NOT_FOUND is intended |

## Left out

- Concurrency (`synchronized` on every operation): the model is sequential, and each operation is one atomic step from one state to the next.
- The wall clock (`LocalDateTime.now()`): the clock reading is a parameter. The two readings of the window query are modelled only under Findings.
- `UUID.randomUUID()`: the fresh id is a parameter, with the precondition that the index does not hold it.
- ISO-8601 parsing and formatting: parsing is the parameter `parse`. Formatting and the 16-character cut are the arithmetic key. Years outside 0000–9999 are formatted with a sign or more digits, which shifts the cut; the model assumes years in that range.
- `HashMap` iteration order: the listing methods pick entries in an unspecified order, and their contracts do not depend on it.
- `getAllSessions` in the controller only forwards to the store's `getAllSessions`, so it is `AllSessions` itself. The HTTP mappings, JSON serialisation (including `@JsonIgnore` on `stoppedAt`) and the Lombok accessors are not modelled.
- RestSubmitSessionRequest, RestSubmitSessionResponse and RestSummary are the datatypes `SubmitRequest`, `Body.Submitted` and `RestSummary`.
- Object identity: the source mutates the session object in place when stopping it, so a caller holding the object sees the stop. The model has values, and the stopped session is a new value.
- AssembleRestSummary: counts are unbounded integers. The source narrows `Long` counts with `intValue()` and takes `size()` as an `int`; those differ only beyond 2^31 sessions.
- StopSession: an unknown id is a `Failure(NotFound)` with the state unchanged, as the callers expect. The source as written throws instead; see Findings.
- SessionsUpdatedLastMinute: takes one clock reading where the source takes two; see Findings.
- StoreProperties.RunKeepsValid: commands run one after another. Interleavings of concurrent calls are covered only because every operation is atomic.

## Findings

| source | as written | input that shows it | evidently intended | confidence | as-written member | corrected member |
|---|---|---|---|---|---|---|
| src/main/java/com/example/sessionsstore/model/SessionsStore.java:57-58 | the current-minute key and the cutoff come from two separate clock readings | one session started 1 ns into a minute; first reading 1 ns before the next minute, second reading at the next minute: both keys name the same bucket and the session is returned twice, so the summary counts it twice | one clock reading for both, so the two buckets always differ and every session is returned at most once | medium, not executed | TwoClockReadings.DoubleCountExample | SessionsStore.SessionsUpdatedLastMinute |
| src/main/java/com/example/sessionsstore/model/SessionsStore.java:34-38 | for an unknown id `index.get` gives `null`, `store.get(null)` gives `null`, and `sessions.get` throws a null-pointer exception; the controller catches only `IllegalArgumentException` | stop of any id on a fresh registry | an unknown id is reported as not found, the registry is unchanged, and the endpoint answers NOT_FOUND (as both test files expect) | high, not executed | UnknownIdStop.UnknownIdEscapes | SessionsRestController.StopSessionEndpoint |
