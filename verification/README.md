# Verified model of the stateful core of OpenHands ev2

This project models, in Dafny, the parts of the ev2 server whose correctness depends on state, on
interleaving or on arithmetic, and proves what their code and documentation promise about them. Where a
promise does not hold of the code, the project keeps the code as it is, shows an input, and proves exactly
when the promise does hold.

| module | part of the system |
|---|---|
| `Jobs`, `JobProtocol`, `JobCapacity` | the jobs table, its guarded updates, a runner's sweep; any number of runners, crashes and clients interleaving; how many rows a runner can come to own |
| `Calendar`, `Codecs`, `Partitions`, `Housekeeping` | calendar days, the texts that carry them, daily partitions, the house-cleaning sweep shared by events, jobs and usage |
| `Events`, `EventRuns` | event rows, truncation stubs, stored bodies, backfill; whole runs of all of these |
| `UsageAggregate` | the raw usage log and its per-minute roll-up |
| `Utf8`, `StreamMeter` | the incremental usage parser of a proxied event stream, from bytes to lines to usage |
| `TokenRotation`, `TokenRaces`, `TokenExpiry` | the federated token rows, concurrent refreshes of one row, expiries along chains of credentials |
| `Keyset` | keyset pagination while the table changes |
| `CorsCache` | the TTL cache of allowed origins |
| `Glob`, `Base52` | redirect-URI wildcards, API-key text |
| `Common` | option and result types, the time unit |

## How the system is represented

- A SQL statement is one atomic step on a map from keys to rows; a transaction that rolls back leaves the
  state as it was. Services whose methods update state are classes; each method states its whole new state.
- Protocols are functions `Apply(state, step)`; a step that is not possible leaves the state unchanged, and
  `Run(steps)` folds a sequence of steps. A statement over `Run(steps)` is therefore a statement over every
  interleaving.
- Times and durations are integers counting microseconds. Clock reads, fresh ids, IdP answers, lock waits and
  store failures are arguments of the step or method that meets them.
- JSON is an abstract value with a size; encryption is the identity with a clock-stamped `exp`.

## Assumptions

- Each phase of a runner's sweep commits, as `sweep_once` documents
  (`job_runner_service.py:66-68`); no commit call appears at `job_runner_service.py:80-113` or `142-150`.
- Nothing but the re-check of PENDING protects a claim. The claim's documentation mentions
  `FOR UPDATE SKIP LOCKED`; the code has no such clause (`job_service.py:270`, `286-300`).
- The re-check of a token row under its lock reads committed state, as `auth_service.py:1172-1175` documents;
  the access row is loaded before the lock at `auth_service.py:588-596`, so a session could answer from its
  earlier copy.
- The IdP either returns tokens or fails without rotating, and a rotating answer carries a token not issued
  before. Clock reads within one chain of credentials do not go backwards and lie after 1970.
- A dated partition can be created only while DEFAULT holds no row of its day, and a row goes to its dated
  partition if there is one, else to DEFAULT: PostgreSQL's own rules.
- A partition sweep is one atomic step. Two processes that both pass the catalogue check before either creates the
  partition (`event_service.py:314-330`) race on the CREATE; `Partitions.BlockedExactly` does not speak of that.

## Where the code and its documentation part

- `JobRun.status` is an unrestricted string, although its description says COMPLETED or ERROR. Whatever bodies
  return, terminal rows are final and a job receives at most one terminal status between client writes. It is
  claimed at most once between client writes unless a completion returned PENDING, and a completion can be
  followed by a second claim exactly when it returned PENDING (`JobProtocol.ReclaimedIffPending`, with a run in
  `JobProtocol.NonTerminalOutcomeReclaims`).
- Claim-on-insert does not look at the running count: n of them give a runner n RUNNING rows whatever its maximum
  (`JobCapacity.ClaimOnInsertExceeds`). A runner stays within its maximum through everything but further
  claims-on-insert if and only if its RUNNING rows, the rows it has selected and the room it has counted come to
  no more (`JobCapacity.CapacityExactly`), so one claim-on-insert is safe exactly when it finds room in that sum
  (`JobCapacity.InsertKeepsCapacityExactly`).
- A partition sweep fails if and only if DEFAULT holds a row dated inside the window
  (`Partitions.BlockedExactly`, with a run in `EventRuns.EarlyEventBlocksTheSweep`);
  `llm_usage_service.py:169-172` expects such rows to be picked up.
- The store cleanup of a dropped day runs after the sweep's commit. A row created on that day in between
  keeps its row and loses its body (`EventRuns.CreateBeforeCleanupLosesBody`). Where cleanups succeed, a stored body
  that is not served from its row is lost if and only if a step of the run inserted its row in that gap
  (`EventRuns.SurvivorResolvesExactly`); in a run without such an insert every surviving event whose store write
  succeeded resolves to its body (`EventRuns.UndisturbedSweepsLoseNothing`).
- `backfill` fails as a whole if and only if some stored event without a row has lost its conversation or has
  no partition to go to (`EventRuns.BackfillFailsExactly`, with a run in
  `EventRuns.DeletedConversationStopsBackfill`).
- `get_body` looks at the truth of `_truncated`, so a body within the cap that carries a true marker of its
  own is served from the store or not at all (`Events.BodyRoundTrip`, with a run in
  `EventRuns.OwnMarkerHidesBody`).
- A rotating IdP answer without an access token, and a crash between a rotating answer and the commit, lose the
  rotated refresh token (`TokenRaces.LostTokenIsPresentedAgain`); the row holds the token last returned if and
  only if neither has happened since (`TokenRaces.RowHoldsTheLatest`).
- The explicit refresh grant is documented to skip the IdP call when another process has just refreshed
  (`auth_service.py:401-405`); the code always makes it (`TokenRotation.AuthService.ExchangeRefreshToken`).
- A credential outlives its row's expiry exactly when the row had run out or the gap between the two clock
  reads carries it into a later second (`TokenExpiry.OutlivesExactly`, with a chain in
  `TokenExpiry.AccessTokenOutlivesItsRow`); a mint without the one-second floor may be dead at birth
  (`TokenExpiry.BornAlive`, `TokenExpiry.TokenBornDead`).
- A regular expression's dot excludes the newline, so `*` does not stand for one
  (`Glob.NewlineUnderWildcardRefused`); a literal comparison with a non-ASCII character raises.
- Resetting the origin cache before the commit lets a slow fill put the old set back
  (`CorsCache.ResetBeforeCommitLosesTheChange`), although `cors_service.py:3-5` promises immediacy; a reset after the commit would keep
  it unless a fill is in flight (`CorsCache.ResetAfterCommitIsCoherent`).
- A character cut across two chunks is dropped by the stream parser, so the recorded payload can depend on the
  chunking (`StreamMeter.SplitCharacterIsLost`); the chunks decode as the stream does if and only if no cut
  splits a character (`Utf8.DecodeChunks`).
- The stream parser splits lines at more characters than an event stream does, so a payload holding U+2028 is
  not metered (`StreamMeter.SeparatorHidesUsage`); its lines are those of the event stream if and only if no
  such character stands before the end of the text (`StreamMeter.LinesAreEventLines`), and what is recorded is right
  for every parser if and only if the texts handed to it agree (`StreamMeter.MeteringExactly`).
- The aggregate is meant to outlive the raw rows. It does for minutes rolled in time
  (`UsageAggregate.SettledMinutesConserve`); a row inserted after its day was dropped replaces the sums of the dropped
  ones (`UsageAggregate.LateRowReplacesDroppedOnes`).
- The aggregator sleeps 60 s after its work, so a minute can be skipped (`UsageAggregate.LargerGapSkips`).

## Model

| member | source | states |
|---|---|---|
| `Jobs.JobService.Create` | src/openhands/ev2/job/job_service.py:109-136 | a client in scope creates a PENDING or SUSPENDED row with its limit, detail and job details and no owner or start; every other row stays |
| `Jobs.JobService.CreateRunnerOwned` | src/openhands/ev2/job/job_service.py:226-258 | the row is RUNNING, owned and started now exactly when it is to run now, otherwise PENDING; it keeps the given detail and job details; every other row stays |
| `Jobs.JobService.Update` | src/openhands/ev2/job/job_service.py:185-206 | a client write overwrites exactly the given columns of any existing row whatever its status; a null is a value for detail, ignored for the job details and refused for status and limit |
| `Jobs.JobService.Delete` | src/openhands/ev2/job/job_service.py:208-212 | removes exactly the row, or reports that it is missing |
| `Jobs.RoomIsExact` | src/openhands/ev2/job/job_runner_service.py:101-113 | what the count of RUNNING rows is for: claiming what there is room for never takes a runner above its maximum, and fills it exactly when enough jobs are PENDING |
| `Jobs.JobService.ClaimPending` | src/openhands/ev2/job/job_service.py:260-300 | claims the limit smallest PENDING ids in order; each becomes RUNNING, owned and started now; a limit below one claims nothing |
| `Jobs.JobService.Complete` | src/openhands/ev2/job/job_service.py:302-352 | writes status, detail and, if given, job details exactly when the row is still RUNNING and owned by the caller; a raised exception becomes ERROR with its text; a status too long for its column fails and writes nothing |
| `Jobs.JobService.RecoverDeadRunners` | src/openhands/ev2/job/job_service.py:354-386 | turns exactly the overdue RUNNING rows to ERROR and counts them; none is left |
| `Jobs.ClaimIsGuarded` | src/openhands/ev2/job/job_service.py:286-300 | whatever ids were selected earlier, only rows still PENDING move, and the runner gains at most as many RUNNING rows as ids |
| `Jobs.ConcurrentClaimsDisjoint` | src/openhands/ev2/job/job_service.py:282-300 | two claims of overlapping candidates never get the same row |
| `Jobs.RecoveryIsCompleteAndIdempotent` | src/openhands/ev2/job/job_service.py:354-386 | no overdue row remains, only overdue rows change, and repeating it at the same instant changes nothing |
| `Jobs.RecoveryReachesExactly` | src/openhands/ev2/job/job_service.py:354-386 | recovery changes a row if and only if it is RUNNING and more seconds than its limit have passed since its start, and then only its status and detail: a run within its deadline is spared |
| `Jobs.CandidatesAreSmallest` | src/openhands/ev2/job/job_service.py:286-290 | the candidates are PENDING, in ascending id order, smaller than every PENDING id left out, and as many as there are up to the limit |
| `Jobs.StatusOfText` | src/openhands/ev2/job/job_models.py:44-53 | a status text read and written back is the same text, and the five texts of the lifecycle are told apart from all others |
| `Jobs.CancelsExactly` | src/openhands/ev2/job/job_runner_service.py:88-99 | a task is cancelled exactly when it has run longer than its own limit |
| `Jobs.ClaimAfterRecovery` | src/openhands/ev2/job/job_runner_service.py:63-78 | a claim made no earlier than the recovery leaves no row that was overdue then, and terminal rows are untouched by both |
| `Jobs.JobRunner.CancelOverdueLiveTasks` | src/openhands/ev2/job/job_runner_service.py:88-99 | requests cancellation of exactly the tasks running longer than their own limit, and counts them |
| `Jobs.JobRunner.ClaimAndRun` | src/openhands/ev2/job/job_runner_service.py:101-113 | claims exactly the smallest PENDING ids there is room for, starts one fresh task for each, and keeps every other row and task |
| `Jobs.JobRunner.StartRuns` | src/openhands/ev2/job/job_runner_service.py:115-131 | each claimed id gets a fresh live task with the limit of its row; the others keep theirs |
| `Jobs.JobRunner.SweepOnce` | src/openhands/ev2/job/job_runner_service.py:63-78 | recovery, cancellation and claim, each at its own clock read: the whole new table and live map; nothing overdue at the recovery is left, terminal rows stay, capacity is kept |
| `JobProtocol.StepKeepsLife` | src/openhands/ev2/job/job_service.py:185-386 | one step of anyone moves a job's row exactly as the history says its life advances, whatever bodies return |
| `JobProtocol.RowMoves` | src/openhands/ev2/job/job_service.py:185-386 | the event a step records says how every row's standing moves |
| `JobProtocol.ReclaimedIffPending` | src/openhands/ev2/job/job_runner_service.py:133-152 | from every reachable state and for every status a body returns: its completion can be followed by a second claim of the job, without a client write or another completion, if and only if the status is PENDING |
| `JobProtocol.RunKeepsRows` | src/openhands/ev2/job/job_service.py:226-386 | in every reachable state a RUNNING row has an owner and a start time, and ids and runners are known |
| `JobProtocol.RunKeepsLife` | src/openhands/ev2/job/job_service.py:185-386 | in every reachable state the history of claims, completions, recoveries, writes and removals tells where each row stands |
| `JobProtocol.RecoverySparesTheRest` | src/openhands/ev2/job/job_service.py:354-386 | in every reachable state a recovery changes exactly the RUNNING rows whose limit has run out since their start, whatever runners crashed |
| `JobProtocol.CompletionWritesExactly` | src/openhands/ev2/job/job_runner_service.py:133-152 | in every reachable state the end of a live task writes the status text its body returned, or ERROR and the exception, if its row is still RUNNING and its runner's; otherwise no row changes |
| `JobProtocol.ClaimWritesExactly` | src/openhands/ev2/job/job_service.py:293-300 | the guarded update makes exactly the chosen rows that still wait RUNNING, owned and started at its instant, and starts one task each |
| `JobProtocol.CrashOrphansExactly` | src/openhands/ev2/job/job_runner_service.py:63-78 | a crash changes no row and orphans exactly the crashed runner's RUNNING rows |
| `JobProtocol.ClaimedOncePerClientWrite` | src/openhands/ev2/job/job_service.py:260-300 | however many runners selected it, between two claims of a job a client or a completion put it back to PENDING; so between two client writes it is claimed at most once unless a completion returned PENDING |
| `JobProtocol.EndedOncePerClientWrite` | src/openhands/ev2/job/job_service.py:302-386 | between two client writes a job receives at most one terminal status, whatever bodies return |
| `JobProtocol.FinishedByItsClaimer` | src/openhands/ev2/job/job_service.py:302-352 | a completion, whatever its status, is written by the runner whose claim started that run, with no claim, terminal status or client write in between |
| `JobProtocol.TerminalRowsAreFinal` | src/openhands/ev2/job/job_runner_service.py:63-152 | no sequence of runner steps ever changes a terminal row, whatever bodies return |
| `JobProtocol.NonTerminalOutcomeReclaims` | src/openhands/ev2/job/job_runner_service.py:133-152 | a body that returns PENDING has its job claimed twice without any client write |
| `JobCapacity.CapacityHolds` | src/openhands/ev2/job/job_runner_service.py:101-113 | in every run whose claims-on-insert found room, a runner owns at most max_concurrent_jobs RUNNING rows, whatever bodies return and whatever happens between count and claim |
| `JobCapacity.CapacityExactly` | src/openhands/ev2/job/job_runner_service.py:101-113 | from every reachable state a runner stays within its maximum through every continuation without claims-on-insert if and only if its RUNNING rows, the rows it has selected and the room it has counted come to no more |
| `JobCapacity.InsertKeepsCapacityExactly` | src/openhands/ev2/job/job_service.py:226-258 | a claim-on-insert keeps the capacity safe through all such continuations if and only if it finds room; without room some continuation takes its runner above the maximum |
| `JobCapacity.StepKeepsCapacity` | src/openhands/ev2/job/job_runner_service.py:101-113 | each step keeps every runner's rows and counted room within its maximum, given that a claim-on-insert finds room |
| `JobCapacity.ClaimOnInsertExceeds` | src/openhands/ev2/job/job_service.py:226-258 | nothing stops a runner at its maximum: for every maximum and every n, n claims-on-insert give it n RUNNING rows |
| `JobProtocol.RecoveryReachesOrphans` | src/openhands/ev2/job/job_service.py:354-386 | in every run, after a recovery every RUNNING row has an owner and a start not past its deadline |
| `JobProtocol.OrphanLeavesRunning` | src/openhands/ev2/job/job_service.py:354-386 | whatever else runs, the row of a crashed runner that no client rewrites stays as it is until a recovery ends it, and is ERROR or removed from the first recovery past its deadline on |
| `Calendar.OrdinalOfDateOf` | src/openhands/ev2/event/event_service.py:124-133 | the closed day-number formula inverts counting days one by one from year 1 |
| `Calendar.DateOfOrdinal` | src/openhands/ev2/event/event_service.py:124-133 | every valid date is the day its number names |
| `Calendar.OrderIsOrdinal` | src/openhands/ev2/event/event_service.py:332-355 | comparing dates field by field is comparing day numbers |
| `Calendar.MonthStartsListed` | src/openhands/ev2/event/event_service.py:124-133 | the months of the calendar start where the Gregorian calendar has them, in common and leap years |
| `Codecs.NumeralRoundTrip` | src/openhands/ev2/event/event_service.py:124-126 | zero-padded digits read back as the number, for every number that fits |
| `Codecs.PartitionNameRoundTrip` | src/openhands/ev2/job/job_service.py:82-91 | parsing a partition's name gives back its day, for every day of a four-digit year and every table name |
| `Codecs.ReadStampExactly` | src/openhands/ev2/job/job_service.py:82-91 | among suffixes of eight digits exactly those of an existing day are read, as that day |
| `Codecs.DefaultNameIsNoDay` | src/openhands/ev2/event/event_service.py:347-352 | the DEFAULT partition's name is never taken for a day |
| `Codecs.IsoDateRoundTrip` | src/openhands/ev2/event/event_store.py:54-57 | the ISO date of every day a date can hold (years 1 to 9999) reads back as that day and holds no slash |
| `Codecs.ReadIsoDateExactly` | src/openhands/ev2/event/event_store.py:153-162 | among texts of the printed form exactly those of an existing day are read, as that day |
| `Codecs.UuidRoundTrip` | src/openhands/ev2/event/s3_event_store.py:76-84 | the dashed hexadecimal form of an id reads back as the id |
| `Codecs.UuidShape` | src/openhands/ev2/event/event_store.py:54-57 | the text of an id has dashes at its four places and lower-case hexadecimal digits elsewhere |
| `Codecs.ObjectKeyRoundTrip` | src/openhands/ev2/event/s3_event_store.py:76-84 | for any readers of a date and of an id: parsing a stored object's key gives back event id and day if and only if they read back what was printed |
| `Codecs.ObjectKeyReadsBack` | src/openhands/ev2/event/s3_event_store.py:76-84 | readers of the printed formats do: the key names its event and its day |
| `Codecs.ObjectKeyOrder` | src/openhands/ev2/event/event_store.py:139-151 | listing keys by their texts lists objects by day and then by id |
| `Codecs.DayPrefixExact` | src/openhands/ev2/event/s3_event_store.py:52-63 | a day's prefix matches an object key if and only if the object is of that day |
| `Codecs.IsoTimeRoundTrip` | src/openhands/ev2/event/event_router.py:72-74 | the ISO text of every UTC timestamp of the years 1 to 9999 reads back to the microsecond and holds no separator |
| `Codecs.CursorRoundTrip` | src/openhands/ev2/event/event_router.py:55-74 | for any readers of a timestamp and of an id: an encoded page cursor decodes to its timestamp and id if and only if they read back what was printed |
| `Codecs.CursorReadsBack` | src/openhands/ev2/event/event_router.py:55-74 | readers of the printed formats do, for every UTC timestamp and id |
| `Codecs.JunkCursorRefused` | src/openhands/ev2/event/event_router.py:55-69 | whatever texts the two readers accept: a cursor is accepted exactly when a timestamp and an id that both read stand around its first separator; any other text is a bad request |
| `Partitions.RoutesToExactlyOne` | src/openhands/ev2/event/event_service.py:287-290 | with a DEFAULT partition exactly one partition accepts an instant: the one a row is routed to |
| `Partitions.DropExpired` | src/openhands/ev2/event/event_service.py:332-355 | drops exactly the partitions named for a day before the cutoff, with their rows |
| `Partitions.BlockedExactly` | src/openhands/ev2/llm/llm_usage_service.py:157-191 | a sweep fails if and only if DEFAULT holds a row dated inside the window |
| `Partitions.UnblockedLater` | src/openhands/ev2/llm/llm_usage_service.py:157-191 | a blocked sweep goes through once the clock has passed the offending days |
| `Partitions.SweepResult` | src/openhands/ev2/event/event_service.py:270-355 | afterwards the dated partitions are exactly those that were there and those of the window, from retentionDays before today on, every row lies where it is routed, and exactly the rows of expired partitioned days are gone |
| `Partitions.SweepIdempotent` | src/openhands/ev2/job/job_service.py:455-523 | a sweep never drops what it created, and repeating it at the same instant changes nothing |
| `Partitions.InsertKeepsLaid` | src/openhands/ev2/event/event_service.py:151-191 | inserting a row keeps every row where routing would put it |
| `Housekeeping.SweepTable` | src/openhands/ev2/llm/llm_usage_service.py:157-240 | the loops create exactly the missing days and drop exactly the expired ones, or fail exactly when blocked |
| `Housekeeping.PartitionManager.EnsurePartitions` | src/openhands/ev2/job/job_service.py:455-482 | one transaction: the swept table, or on a refused CREATE the table as it was |
| `Events.EventService.Create` | src/openhands/ev2/event/event_service.py:151-191 | stores the row first, then best effort the full envelope under the derivable key; fails exactly without conversation, scope or partition, in that order |
| `Events.EventService.GetBody` | src/openhands/ev2/event/event_service.py:241-264 | the row's body unless its marker is true, then the stored body, then the errors |
| `Events.EventService.DeleteDay` | src/openhands/ev2/event/event_store.py:125-140 | removes exactly the objects of the day and counts them |
| `Events.PrefixSelectsTheDay` | src/openhands/ev2/event/s3_event_store.py:52-63 | the day prefix selects, among the key texts of a store, exactly the objects of the day |
| `Events.EventService.EnsurePartitions` | src/openhands/ev2/event/event_service.py:270-312 | sweeps the table in one transaction, then removes exactly the objects of the dropped days whose cleanup does not fail |
| `Events.EventService.Backfill` | src/openhands/ev2/event/event_service.py:361-395 | on every store: goes through exactly when every missing object can be inserted, then inserts exactly those, the earliest readable envelope of each event without a row, and counts them; otherwise changes nothing |
| `Events.BackfillStep` | src/openhands/ev2/event/event_service.py:375-393 | one more object extends the backfilled table by exactly what it adds, or makes the whole store unrestorable |
| `Events.BodyRoundTrip` | src/openhands/ev2/event/event_service.py:52-65 | get_body after create returns the same JSON value exactly when the store write succeeded or the body is served from its row |
| `Events.ScopeExactly` | src/openhands/ev2/event/event_service.py:193-205 | get_body finds no event if and only if there is no row or the row belongs to another conversation |
| `Events.ForeignObjects` | src/openhands/ev2/event/event_service.py:241-264 | what a truncated row reads as when its object is not what create stored: the body of any envelope that has one, an attribute fault for JSON that is no object, and no body otherwise |
| `Events.StubTells` | src/openhands/ev2/event/event_service.py:52-65 | a body over the cap leaves the marker, its size and a preview in its row, and nothing else; any other is kept whole |
| `Events.RebuildInvertsStore` | src/openhands/ev2/event/event_service.py:73-121 | rebuilding from the stored envelope gives the row create built under the same cap |
| `Events.RebuildDefaults` | src/openhands/ev2/event/event_service.py:89-121 | an envelope that lacks members rebuilds as one with an empty body, kind backfill, at midnight of its key's day, so that the row finds its object; without a conversation or with a bad timestamp it is an error |
| `Events.ListingOrder` | src/openhands/ev2/event/event_store.py:139-151 | the order in which backfill goes over the objects is the order of their key texts |
| `EventRuns.RunKeepsInv` | src/openhands/ev2/event/event_service.py:151-395 | in every reachable state each row is the one create built and the store holds exactly the envelopes written and not cleaned up |
| `EventRuns.GetBodyExactly` | src/openhands/ev2/event/event_service.py:193-264 | every answer of get_body in every reachable state, for every conversation and id, with a store or without: not found unless the row is there and its own conversation asks, then the body create was given or that there is none |
| `EventRuns.RowHolds` | src/openhands/ev2/event/event_service.py:167-180 | every reachable row holds the conversation, kind, time and size create was given, and the body itself or, over the cap, its stub |
| `EventRuns.CreateLeaves` | src/openhands/ev2/event/event_service.py:151-191 | a create leaves a row if it commits and the full envelope if the store takes it, whether or not it commits, and nothing else changes |
| `EventRuns.BodiesResolve` | src/openhands/ev2/event/event_service.py:241-264 | what get_body answers for any row of any reachable state, exactly |
| `EventRuns.SurvivorResolvesExactly` | src/openhands/ev2/event/event_service.py:270-355 | what get_body answers for every surviving event whose day awaits no cleanup, exactly: its body if that is served from its row, or if its store write succeeded and its row was never inserted between the commit of a sweep that dropped its day and that day's cleanup; else that there is none |
| `EventRuns.SurvivorsResolve` | src/openhands/ev2/event/event_service.py:270-355 | a surviving event whose store write succeeded resolves to its body, also while its day awaits a cleanup and however cleanups end, unless its row was inserted in such a gap |
| `EventRuns.UndisturbedSweepsLoseNothing` | src/openhands/ev2/event/event_service.py:296-299 | when no row is inserted between a sweep's commit and its cleanup, every surviving event whose store write succeeded resolves to its body |
| `EventRuns.ExposedExactly` | src/openhands/ev2/event/event_service.py:296-299 | the events the model marks as exposed are those whose row some step of the run inserted in such a gap |
| `EventRuns.SweepDropsExactly` | src/openhands/ev2/event/event_service.py:332-355 | a sweep removes exactly the rows of the days it drops and no object |
| `EventRuns.CleanupRemovesExactly` | src/openhands/ev2/event/event_service.py:302-312 | after a cleanup that succeeds exactly the events of its day that are not served from their row lose their body; no other event reads differently |
| `EventRuns.OthersDoNotDisturb` | src/openhands/ev2/event/event_service.py:151-264 | creates, losses, backfills, sweeps and cleanups of other days never change what a surviving row reads as |
| `EventRuns.CreateBeforeCleanupLosesBody` | src/openhands/ev2/event/event_service.py:296-299 | an event created on a dropped day before its cleanup keeps its row and loses any body over the cap |
| `EventRuns.BackfillReconstructs` | src/openhands/ev2/event/event_service.py:361-395 | after any run, exactly the stored events without a row come back, each as create built it and readable in full; existing rows are unchanged |
| `EventRuns.LostRowsComeBack` | src/openhands/ev2/event/event_service.py:361-395 | rows lost while their objects stayed come back from a backfill as they were |
| `EventRuns.SecondBackfillRestoresNothing` | src/openhands/ev2/event/event_service.py:361-395 | a second backfill goes through and adds nothing |
| `EventRuns.BackfillFailsExactly` | src/openhands/ev2/event/event_service.py:361-395 | after any run a backfill fails if and only if some stored event without a row lost its conversation or has no partition |
| `EventRuns.DeletedConversationStopsBackfill` | src/openhands/ev2/event/event_service.py:361-395 | a run in which a deleted conversation makes the backfill fail |
| `EventRuns.EarlyEventBlocksTheSweep` | src/openhands/ev2/event/event_service.py:314-330 | a run in which an event dated one day beyond the window makes the next day's sweep fail |
| `EventRuns.OwnMarkerHidesBody` | src/openhands/ev2/event/event_service.py:241-264 | a run after which a body the row holds in full is not served, because it carries a true marker of its own and its store write failed |
| `EventRuns.StoreIsUnique` | src/openhands/ev2/event/event_store.py:54-57 | in every reachable state the store holds one object per event |
| `UsageAggregate.UsageTables.Record` | src/openhands/ev2/llm/llm_usage_service.py:102-151 | appends one raw row, or nothing when the insert fails |
| `UsageAggregate.UsageTables.AggregateMinute` | src/openhands/ev2/llm/llm_usage_service.py:246-298 | overwrites the minute's slots with the count and the column sums of each creator's rows in the minute, leaves every other slot and returns how many slots the minute has |
| `UsageAggregate.GroupByCreator` | src/openhands/ev2/llm/llm_usage_service.py:258-280 | the GROUP BY equals the fold of each creator's raw rows in the minute |
| `UsageAggregate.RolledColumns` | src/openhands/ev2/llm/llm_usage_service.py:257-280 | the roll-up of a creator's minute counts the creator's rows of that minute and sums each of the eight columns into its own |
| `UsageAggregate.RollWritesColumns` | src/openhands/ev2/llm/llm_usage_service.py:257-298 | in every run a roll writes those counts and column sums into the slots of its minute whose creator has rows, and leaves every other slot |
| `UsageAggregate.CountsTheMinute` | src/openhands/ev2/llm/llm_usage_service.py:292-298 | in every run the count returned is that of the slots of the rolled minute itself |
| `UsageAggregate.RetentionDropsExactly` | src/openhands/ev2/llm/llm_usage_service.py:216-240 | retention takes exactly the raw rows of the dropped days and no aggregated row |
| `UsageAggregate.AggregateRefinesLog` | src/openhands/ev2/llm/llm_usage_service.py:246-298 | over any run a slot holds the counts and sums of its creator's raw rows at the last roll of its minute |
| `UsageAggregate.UpsertSlot` | src/openhands/ev2/llm/llm_usage_service.py:281-298 | a roll changes slots of its own minute only |
| `UsageAggregate.RollIdempotent` | src/openhands/ev2/llm/llm_usage_service.py:246-298 | rolling a minute twice is rolling it once |
| `UsageAggregate.RolledOrderIrrelevant` | src/openhands/ev2/llm/llm_usage_service.py:258-280 | the roll-up depends on the raw rows only as a multiset |
| `UsageAggregate.TotalsConserved` | src/openhands/ev2/llm/llm_usage_service.py:246-298 | the per-creator sums of any set of minutes add up to the raw total of those minutes |
| `UsageAggregate.SettledMinutesConserve` | src/openhands/ev2/llm/llm_usage_service.py:246-298 | in every run of inserts, rolls and retention, the aggregate rows of any set of minutes rolled after their last insert and before retention reached their day add up to every row ever inserted in them, also after retention has dropped those |
| `UsageAggregate.SettledSlots` | src/openhands/ev2/llm/llm_usage_service.py:246-298 | each slot of such a minute holds what its creator ever used in it, and later rolls leave it |
| `UsageAggregate.LateRowReplacesDroppedOnes` | src/openhands/ev2/llm/llm_usage_service.py:246-298 | in every run a row that comes in after its creator's rows of the minute were dropped replaces their sums at the next roll |
| `UsageAggregate.FreshMinuteConserves` | src/openhands/ev2/llm/llm_usage_service.py:246-298 | right after a roll in a run without retention the minute's aggregate rows add up to its raw rows |
| `UsageAggregate.TargetWindow` | src/openhands/ev2/llm/llm_usage_service.py:300-311 | for every lag, a minute is the target exactly during the sixty seconds that begin when it has been over for the lag less one minute |
| `UsageAggregate.TargetIsOver` | src/openhands/ev2/llm/llm_usage_service.py:300-311 | a targeted minute has ended when it is rolled |
| `UsageAggregate.NoMinuteSkipped` | src/openhands/ev2/llm/llm_usage_service.py:300-311 | sweeps at most 60 s apart roll every minute between the first and the last target |
| `UsageAggregate.LargerGapSkips` | src/openhands/ev2/app.py:86-98 | with any larger gap a minute can be skipped |
| `StreamMeter.ParseStreamUsage` | src/openhands/ev2/llm/llm_router.py:877-898 | returns the unterminated rest and the last usage among the terminated lines of buffer plus chunk |
| `StreamMeter.PayloadExactly` | src/openhands/ev2/llm/llm_router.py:885-890 | a line hands the parser p if and only if it is "data:" and p with any white space before, between and after, p has none at its ends, and p is not "[DONE]" |
| `StreamMeter.UsageExactly` | src/openhands/ev2/llm/llm_router.py:885-897 | the usage of a line, for every parser: that of the text it carries, none for "[DONE]" or a line that carries nothing |
| `StreamMeter.LastUsageIsLast` | src/openhands/ev2/llm/llm_router.py:884-897 | what is found is the usage of the last line that has one |
| `StreamMeter.OrdinaryStreamIsMetered` | src/openhands/ev2/llm/llm_router.py:844-898 | a stream of one-line data events, however it is cut between characters, is recorded with what its last parsing text other than "[DONE]" parses to |
| `StreamMeter.ProxyStream` | src/openhands/ev2/llm/llm_router.py:844-874 | passes the chunks through unchanged; records the last usage of the decoded text, which is that of the terminated event-stream lines of the whole stream when no cut splits a character and no other line break occurs |
| `StreamMeter.Feed` | src/openhands/ev2/llm/llm_router.py:877-898 | incremental parsing equals batch parsing of the concatenated text |
| `Utf8.DecodeChunks` | src/openhands/ev2/llm/llm_router.py:877-898 | decoding chunk by chunk is decoding the stream if and only if every cut falls where the decoder's walk stops; how many characters are lost otherwise |
| `Utf8.DecodesExactly` | src/openhands/ev2/llm/llm_router.py:881 | decoding without its tables: a character whose encoding by section 3 of RFC 3629 heads the bytes is taken, and a byte at which no encoding begins is dropped |
| `Utf8.DecodeInvertsEncode` | src/openhands/ev2/llm/llm_router.py:881 | every text comes back from its encoding |
| `Utf8.CutsAreStops` | src/openhands/ev2/llm/llm_router.py:844-898 | that condition read on the walk over the whole stream |
| `StreamMeter.ChunkingIrrelevant` | src/openhands/ev2/llm/llm_router.py:844-898 | any two cuttings of the same bytes that split no character record the same payload and buffer, those of the whole stream |
| `Utf8.AsciiCutsAnywhere` | src/openhands/ev2/llm/llm_router.py:844-898 | an ASCII stream may be cut anywhere |
| `StreamMeter.BufferIsSuffix` | src/openhands/ev2/llm/llm_router.py:877-898 | the carried buffer is the text after the terminated lines |
| `StreamMeter.LinesDecompose` | src/openhands/ev2/llm/llm_router.py:877-898 | the lines put together are the text, and each breaks only at its end |
| `Utf8.DecodeAppend` | src/openhands/ev2/llm/llm_router.py:877-898 | decoding two pieces is decoding their concatenation if and only if the walk stops at the cut; otherwise exactly one character is lost |
| `StreamMeter.LinesAreEventLines` | src/openhands/ev2/llm/llm_router.py:877-898 | the searched lines are the terminated lines of section 9.2.5 of the HTML Standard if and only if no line break but \n and \r stands before the last character |
| `StreamMeter.MeteringExactly` | src/openhands/ev2/llm/llm_router.py:844-898 | for every stream however it is cut: whatever texts carry usage, the recorded payload is that of the event-stream lines if and only if both hand the parser the same texts in the same order of last occurrence |
| `StreamMeter.MeteringIsRight` | src/openhands/ev2/llm/llm_router.py:844-898 | for cuts that split no character and a text without other line breaks, the recorded payload is the last usage-bearing terminated event-stream line |
| `StreamMeter.SeparatorHidesUsage` | src/openhands/ev2/llm/llm_router.py:877-898 | an event-stream line with U+2028 inside its JSON carries usage and none is recorded |
| `StreamMeter.SplitCharacterIsLost` | src/openhands/ev2/llm/llm_router.py:877-898 | a stream whose recorded payload differs when a character is cut across two chunks |
| `TokenRotation.AuthService.PersistIdpTokens` | src/openhands/ev2/auth/auth_service.py:1078-1110 | both rows with the answer's tokens and the expiries its lifetimes promise less the drift tolerance, or nothing at all when a token is missing |
| `TokenRotation.AuthService.RefreshRows` | src/openhands/ev2/auth/auth_service.py:1181-1204 | presents the stored refresh token once; with an access token in the answer rewrites every column as the answer and its promised lifetimes say, otherwise nothing |
| `TokenRotation.RewrittenExactly` | src/openhands/ev2/auth/auth_service.py:1181-1204 | an answer is written column by column exactly when it has an access token: owner kept, refresh token replaced or kept, each expiry from its own lifetime and clock read |
| `TokenRotation.AuthService.ExchangeRefreshToken` | src/openhands/ev2/auth/auth_service.py:388-428 | every outcome of the explicit grant, from client authentication on; with the lock and a good grant it always calls the IdP |
| `TokenRotation.AuthService.RefreshAccessToken` | src/openhands/ev2/auth/auth_service.py:576-600 | every outcome of the cookie path; under the lock it calls the IdP exactly when the access row has expired |
| `TokenRotation.AuthService.RevokeToken` | src/openhands/ev2/auth/auth_service.py:434-487 | a refresh token's rows are deleted, an access token's expiry becomes now, any other token is passed over; which IdP credential is forwarded |
| `TokenRotation.AuthService.MaybeRefreshAuthCookie` | src/openhands/ev2/auth/auth_dependencies.py:219-308 | off its own axp while not imminent, off its axp again on a lock timeout, else off the refreshed row; a cookie without a row for what is left of its life; max_age is the whole seconds left, one at the least |
| `TokenRaces.RunKeepsInv` | src/openhands/ev2/auth/auth_service.py:1135-1204 | in every interleaving the row holds the token last committed and at most one new token is in flight |
| `TokenRaces.OneRefreshAtATime` | src/openhands/ev2/auth/auth_service.py:1135-1163 | at most one process is past the row lock |
| `TokenRaces.PresentsTheLatest` | src/openhands/ev2/auth/auth_service.py:1181-1204 | each IdP refresh presents the token last committed, which is the one last returned exactly when that return was not dropped |
| `TokenRaces.RowHoldsTheLatest` | src/openhands/ev2/auth/auth_service.py:1181-1204 | whenever the lock is free the row holds the token last returned, if and only if no request with a rotating answer ended uncommitted since the last return |
| `TokenRaces.LostExactly` | src/openhands/ev2/auth/auth_service.py:1181-1204 | the token last returned is lost exactly when a step of the run ended, uncommitted, a request whose answer rotates, with no return since |
| `TokenRaces.NoAccessTokenCannotCommit` | src/openhands/ev2/auth/auth_service.py:1194-1198 | a rotating answer without an access token can only end that way |
| `TokenRaces.LostTokenIsPresentedAgain` | src/openhands/ev2/auth/auth_service.py:1181-1204 | a run that loses a rotated token: the row keeps the old one and the next refresh presents it |
| `TokenRaces.OnlyTheHolderWrites` | src/openhands/ev2/auth/auth_service.py:1135-1204 | the row's tokens change only by the commit of the lock holder |
| `TokenRaces.AcquireExactly` | src/openhands/ev2/auth/auth_service.py:1135-1179 | a waiter gets past the free lock exactly when the row is there and its own, the refresh token is good and, on the cookie path, the access row has run out |
| `TokenRaces.CommitExactly` | src/openhands/ev2/auth/auth_service.py:1181-1204 | in every reachable state a commit writes the answer column by column into the row that was presented and frees the lock; an answer without an access token cannot commit |
| `TokenRaces.DeletedSessionIsOver` | src/openhands/ev2/auth/auth_service.py:434-487 | after a deletion with the lock free, whatever runs on, the row does not come back and no token is presented again; while the lock is held the deletion waits |
| `TokenRaces.RevokedAccessIsRefreshed` | src/openhands/ev2/auth/auth_service.py:434-487 | a revoked access row is refreshed by the next cookie-path request whose grant is good |
| `TokenRaces.TimedOutWaiterIsInert` | src/openhands/ev2/auth/auth_service.py:1148-1156 | a waiter that times out, however often it found the lock held, changes nothing by it and never presents, keeps or drops a token afterwards, whatever runs on |
| `TokenRaces.WithoutLockInert` | src/openhands/ev2/auth/auth_service.py:1135-1163 | a process that never holds the lock, whatever it tries, never presents, keeps or drops a token |
| `TokenRaces.RequestRefinesService` | src/openhands/ev2/auth/auth_service.py:1135-1204 | from every state with the lock free, for every path, clock and IdP answer: the protocol's request (start, lock, answer, commit or abort) ends with exactly the rows and the presented tokens that the service methods are specified to leave |
| `TokenRaces.OneRefreshServesWaiters` | src/openhands/ev2/auth/auth_service.py:1165-1179 | after any refresh, a cookie-path waiter that gets the lock calls the IdP exactly when the grant is good and the refreshed access expiry has passed |
| `TokenRaces.LifetimeServesWaiters` | src/openhands/ev2/auth/auth_service.py:1631-1649 | for an advertised lifetime that moment lies the lifetime less the drift tolerance after the answer, or at it |
| `TokenExpiry.RowWithinPromise` | src/openhands/ev2/auth/auth_service.py:1631-1670 | a row's expiry never passes what was advertised (or the fallback), counted from the processing of the answer, except under a zero fallback |
| `TokenExpiry.RowExpiryExactly` | src/openhands/ev2/auth/auth_service.py:1631-1670 | from both sides: a row records what was promised less the drift tolerance, to the whole second for an advertised lifetime or instant and exactly for the fallback; a lifetime below the tolerance leaves nothing, a fallback one second |
| `TokenExpiry.RewriteRecords` | src/openhands/ev2/auth/auth_service.py:1181-1204 | a callback or refresh records each row from its own lifetime, fallback and clock read |
| `TokenExpiry.RefreshedRowLives` | src/openhands/ev2/auth/auth_service.py:1631-1649 | a refreshed row is good for a while exactly when the advertised seconds, or the advertised instant, exceed the drift tolerance, or nothing was advertised |
| `TokenExpiry.MintBound` | src/openhands/ev2/encryption/encryption_service.py:133-140 | exp is at most the later of the row's expiry and a second after the mint, plus the gap to the second clock read |
| `TokenExpiry.MintExactly` | src/openhands/ev2/auth/auth_service.py:1248-1272 | exp from both sides: the last whole second of the row's life carried over the gap; of one second for a row that has run out, or in its last second under the floor |
| `TokenExpiry.OutlivesExactly` | src/openhands/ev2/auth/auth_service.py:1248-1272 | exactly when a minted credential outlives its row |
| `TokenExpiry.BornAlive` | src/openhands/ev2/auth/auth_tokens.py:374-378 | exactly when a mint is good at its own instant; with the one-second floor always |
| `TokenExpiry.AccessTokenOutlivesItsRow` | src/openhands/ev2/auth/auth_service.py:1248-1272 | a chain whose access token is good 0.1 s longer than its row |
| `TokenExpiry.TokenBornDead` | src/openhands/ev2/auth/auth_service.py:1248-1272 | a token minted in the last second of its row that is dead at birth |
| `TokenExpiry.CredentialsBounded` | src/openhands/ev2/auth/auth_service.py:1248-1334 | over every chain of callback, refresh, revocation, mint and cookie re-mint, exp and axp stay within the largest expiry the row ever held or a second after the mint, plus the gap |
| `TokenExpiry.MintReachesItsRow` | src/openhands/ev2/auth/auth_service.py:1248-1334 | over every chain a credential minted off a row with a second to live lasts to within a second of that row, an id_token to that or to 900 seconds, and a cookie carries the second of its row's expiry |
| `TokenExpiry.RevokedRowMintsOneSecond` | src/openhands/ev2/auth/auth_service.py:434-487 | once the access row is revoked, what is minted off it lasts a second |
| `TokenExpiry.RemintKeepsAxp` | src/openhands/ev2/auth/auth_dependencies.py:253-276 | a cookie is re-minted off its own axp if and only if that is beyond the drift tolerance or the lock is held, and this reproduces it |
| `Keyset.SmallestMeetsOrderLimit` | src/openhands/ev2/event/event_service.py:218-237 | ORDER BY and LIMIT: ascending, drawn from the rows, as many as the limit allows, downward closed |
| `Keyset.AscendingUnique` | src/openhands/ev2/event/event_service.py:218-237 | an ascending sequence is determined by its elements, so the page is unique |
| `Keyset.SearchPage` | src/openhands/ev2/cors/cors_service.py:86-101 | what one page holds and when it offers a cursor, with and without a look-ahead row |
| `Keyset.EventPage` | src/openhands/ev2/event/event_service.py:207-239 | a page of events, spelled out: by timestamp and then id, after the cursor, nothing skipped, with a cursor on its last row exactly when it is full |
| `Keyset.ScanAscending` | src/openhands/ev2/event/event_service.py:207-239 | under any changes between pages the emitted keys strictly increase beyond the cursor |
| `Keyset.ScanSound` | src/openhands/ev2/event/event_service.py:207-239 | every key of a page was in the table when that page was read |
| `Keyset.ScanComplete` | src/openhands/ev2/event/event_service.py:207-239 | a row present throughout a finished scan is emitted |
| `Keyset.StaticScan` | src/openhands/ev2/event/event_service.py:207-239 | on a static table the pages concatenate to the full sorted result |
| `Keyset.StaticScanFinishes` | src/openhands/ev2/job/job_service.py:166-183 | on a static table the scan ends, for every limit from one on |
| `Keyset.KeyOrderTotal` | src/openhands/ev2/event/event_service.py:218-236 | (timestamp, id) compared as the query does is a strict total order |
| `CorsCache.CorsService.GetAllowedOriginsCached` | src/openhands/ev2/cors/cors_service.py:62-77 | a live entry is served, an expired one refilled and stamped |
| `CorsCache.CorsService.CreateAllowedOrigin` | src/openhands/ev2/cors/cors_service.py:103-113 | adds the origin and empties the cache |
| `CorsCache.CorsService.DeleteAllowedOrigin` | src/openhands/ev2/cors/cors_service.py:141-146 | removes the origin and empties the cache, or reports that it is missing |
| `CorsCache.CorsService.ResetCorsCache` | src/openhands/ev2/cors/cors_service.py:48-59 | empties the cache |
| `CorsCache.BoundedStaleness` | src/openhands/ev2/cors/cors_service.py:48-77 | in every interleaving each returned set was committed less than 30 s before the call began or during it |
| `CorsCache.ReadReturns` | src/openhands/ev2/cors/cors_service.py:62-77 | a read gets the cached set while that is less than 30 s old, and otherwise the set its own query saw, cached with the clock read of its beginning |
| `CorsCache.CoherentServes` | src/openhands/ev2/cors/cors_service.py:62-77 | a coherent cache serves the committed set |
| `CorsCache.VisibleAtOnceIffCoherent` | src/openhands/ev2/cors/cors_service.py:44-77 | a change is visible to the next call if and only if the cache is coherent after it |
| `CorsCache.ResetAfterCommitIsCoherent` | src/openhands/ev2/cors/cors_service.py:44-59 | a reset after the commit, with no queried fill in flight, makes the change visible at once |
| `CorsCache.ResetBeforeCommitLosesTheChange` | src/openhands/ev2/cors/cors_service.py:103-113 | a reset before the commit lets a fill in between put the old set back |
| `Glob.JoinOfSplit` | src/openhands/ev2/auth/auth_service.py:1744-1757 | split, escape and join give back the pattern's pieces around its wildcards |
| `Glob.RegexIsGlobWithoutNewlines` | src/openhands/ev2/auth/auth_service.py:1744-1757 | the regular expression accepts exactly the glob matches with no newline under a wildcard |
| `Glob.WildcardMatchExact` | src/openhands/ev2/auth/auth_service.py:1744-1757 | the result or error on every pattern and target |
| `Glob.WildcardReadingsAgree` | src/openhands/ev2/auth/auth_service.py:1744-1757 | glob, decomposition and leftmost-greedy search agree on all texts, and on newline-free ASCII with the program |
| `Glob.NewlineUnderWildcardRefused` | src/openhands/ev2/auth/auth_service.py:1744-1757 | a newline is not matched by the wildcard |
| `Base52.Encode` | src/openhands/ev2/auth/auth_tokens.py:74-106 | the loop ends with the base-52 text of the bytes' number |
| `Base52.ValueOfText` | src/openhands/ev2/auth/auth_tokens.py:74-106 | the positional value of the text is the number |
| `Base52.FromBytesAppend` | src/openhands/ev2/auth/auth_tokens.py:92-106 | the first bytes are the most significant |
| `Base52.RankOfSymbol` | src/openhands/ev2/auth/auth_tokens.py:74-90 | the 52 symbols are pairwise distinct |
| `Base52.EncodingInjective` | src/openhands/ev2/auth/auth_tokens.py:74-106 | equally long byte strings with the same text are equal |
| `Base52.TextLength` | src/openhands/ev2/auth/auth_tokens.py:74-106 | a text has at most k symbols exactly when the number fits k places |
| `Base52.KeyLength` | src/openhands/ev2/auth/auth_tokens.py:74-106 | 128 bits always fit 23 symbols, and no smaller bound holds |

## Left out

- Jobs.JobService.ClaimPending: lists the claimed rows in id order, while RETURNING leaves their order open; nothing proved of a runner depends on it.
- Partitions.DropExpired: requires days of four-digit years (1000 to 9999), because the name format does; strptime's shorter forms and suffixes other than eight characters are not modelled.
- Housekeeping.SweepTable: requires the same four-digit years of every existing partition and every day of the window.
- Codecs.IsoTimeRoundTrip: covers the text `isoformat` prints for UTC instants; what else `fromisoformat` and `uuid.UUID` read is left to the readers, which are parameters of the cursor and key codecs.
- EventRuns.BackfillReconstructs: a backfill is one step of a run; objects written or deleted while it iterates are not modelled.
- UsageAggregate.UsageTables.Record: takes the columns as given; extracting them from the SDK's metrics object is not modelled.
- StreamMeter.MeteringIsRight: a leading byte order mark, which section 9.2.5 of the HTML Standard strips, is not modelled; nor is joining the data lines of one event.
- A job re-claimed by the same runner while its earlier task is still alive replaces that task in the `_live` dictionary; `JobProtocol` keeps both tasks, the class `JobRunner` keeps the dictionary of one sweep.
- The API-key session gate (`auth_dependencies.py:163-216`) takes the same lock path as the cookie and is not modelled separately; the `_normalize_scopes` helper, provisioning, authorization codes and PKCE are not modelled.
- Revoking at the IdP (best effort) and the deletion of long-expired token rows are the `Delete` and `RevokeAccess` steps without the IdP call.
- HTTP handlers, dependency wiring, status codes and Pydantic validation: plumbing without a deep invariant.
- Cryptography, JSON parsing, the regular-expression engine, SQLAlchemy sessions and boto3 paging.
- Permission filters and role policies: one fixed set of visible rows stands for the filtered table.
- CRUD and batch code for API keys, groups, feature flags, profiles and conversation records: it would add only easy members.
- Cost is an integer number of millionths, not a floating-point number.
- File-system failures inside a day's deletion: `EventRuns` lets a cleanup delete any part of the day's objects.
