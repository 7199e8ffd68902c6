# nas-pipeline, verified

nas-pipeline carries FAA flight data from a feed to a live map: a bridge replays or receives raw
documents, the normalizer splits them into one message per flight, the filter withholds the flights
on the LADD block list, the cache-writer keeps a live view in Redis and the database-writer a history
in Postgres. Every hop is a Kafka topic of one partition, consumed at least once.

This project models the places where state accumulates under redelivery, reordering and
concurrency, and proves what holds over all runs:

- **the history** (`FlightRow`, `Redelivery`, `Lifecycle`, `Tables`, `Columns`, `HistoryStore`, `WriterRun`,
  `WriterExactness`, `WriterOnce`, `WriterLoop`): one row of `flights` as a transition function with SQL's null
  semantics (`Sql`), a batch as a queue of statements under two foreign keys, and the writer as a
  state machine with crashes, lost commits and writes that were applied but reported failed;
- **the worker pools** (`WorkerPool`, `PoolGuarantees`, `PoolOrder`, `PoolExactness`,
  `PoolInterleaving`): the batch protocol of filter and normalizer as a step system of dispatcher, workers,
  channel, WaitGroup, failure flag, commit, reload and crash;
- **the block list** (`LaddList`, `LaddNames`, `LaddFiles`, `LaddStore`): promotion and archiving as
  operations on three directories, loading, hot reload, the readiness gate and the upload check;
- **the live view** (`RedisView`, `CacheWriter`, `CacheLoop`, `LiveView`): keys with an expiry, merged by
  HSET, against the message history and against the database row, over whole runs of both writers;
- **the way through** (`EndToEnd`): both pools and the database-writer in a row;
- **the census** (`FieldSummary`, `Census`, `CensusPlaces`, `CensusTrees`): a bounded streaming summary against the exact one,
  across restarts;
- **positions, migrations, replay** (`Positions`, `Calendar`, `Migrate`, `ReplaySplit`).

`Text`, `Sequences` and `Calendar` hold what several of them share. `dafny verify dfyconfig.toml`
checks everything.

## Where code and documentation disagree

The model follows the code.

- `database-writer/README.md:88-90` calls a replayed batch safe because the upserts are idempotent.
  The guard is `>=`, so a batch in which two messages of one flight share the final timestamp, one
  DROPPED and one not, counts an edge again on every replay (`Redelivery.ReplayCanInventADrop`).
  `Redelivery.BatchReplayIsIdempotentIff` gives the exact condition for one batch and
  `WriterExactness.SinglePassExactlyWhenTiesAgree` the exact condition on the log for all runs.
- `filter/README.md:58-60` promises at-least-once. After a failed batch the loop goes on with the
  next one, whose commit, being an offset, passes the failed message
  (`PoolGuarantees.FailedBatchCanBeCommittedPast`). `PoolGuarantees.CommittedOffsetsHaveExactlyOneFate`
  says exactly which messages the committed offset has passed in that way.
- `cache-writer/README.md:61-64` promises at-least-once and that a message whose write failed is retried. The
  loop goes on, and the next commit passes the failed message; a group that has never committed starts at
  the end of the topic again (`CacheLoop.FirstMessagesCanBeSkipped`).
  `CacheLoop.CacheOffsetsHaveExactlyOneFate` says exactly what the committed offset stands for.
  The database-writer starts the same way (`database-writer/internal/kafka/consumer.go:25`), so its results
  speak of the messages from `base` on.
- The offline lifecycle report bounds the drops the database counts but not the reactivations
  (`Lifecycle.ReactivationCountCanExceedSorted`); `Lifecycle.ReactivationsAreBoundedIff` says over which
  statuses it does, and it always confirms that there was one (`Lifecycle.ReactivationIsConfirmedOffline`).
- Both writers compare position times as strings, which is time order for whole seconds and not when
  fractions are mixed in (`Positions.MixedFormsKeepTheOlder`, `Positions.KeptIsLatestInTimeIff`).

## Model

| member | source | states |
|---|---|---|
| `FlightRow.StatusFollowsLastLatest` | database-writer/internal/store/postgres.go:65-68 | For every arrival order there is a last-arrived message among those with the greatest timestamp; the row has its status, and `status_time`, never null, is its time. |
| `FlightRow.LastLatest` | database-writer/internal/store/postgres.go:65-68 | The same on top of an existing row: the newest message of the run decides if it is at least as recent as the row, otherwise status, time and both counters stay. |
| `FlightRow.IdentityIsFirstKnown` | database-writer/internal/store/postgres.go:50-56 | Each of the seven identity columns holds the first non-null value that arrived for it, column by column. |
| `FlightRow.KnownIdentityIsKept` | database-writer/internal/store/postgres.go:50-56 | Over any run a known column is neither changed nor blanked, and a message that has arrived has nothing left to add. |
| `FlightRow.CountersCountAcceptedEdges` | database-writer/internal/store/postgres.go:57-67 | Both counters equal the edge counts of the subsequence of messages that were at least as recent as everything before them. |
| `FlightRow.ReactivationsNeverExceedDrops` | database-writer/internal/store/postgres.go:57-67 | Over every run: reactivations, plus one if the flight is DROPPED now, are at most drops, plus one if the first stored status was DROPPED. |
| `FlightRow.StaleMessageOnlyFillsIdentity` | database-writer/internal/store/postgres.go:57-68 | A message older than the row changes nothing but null identity columns. |
| `FlightRow.RedeliveryIsNoOp` | database-writer/internal/store/postgres.go:44-69 | If equal timestamps that lead at their arrival carry equal statuses, delivering any earlier message again changes no column. |
| `Redelivery.BatchReplayIsIdempotentIff` | database-writer/README.md:88-90 | Replaying a whole batch on any row is idempotent if and only if the messages of the batch that carry the final timestamp are all DROPPED or all not DROPPED. |
| `Redelivery.ReplayCanInventADrop` | database-writer/README.md:88-90 | Two messages of the same second, ACTIVE then DROPPED: replaying the pair counts a second drop and a reactivation. |
| `Redelivery.OrderIsIrrelevantIffLatestAgree` | database-writer/internal/store/postgres.go:65-68 | Every permutation of the messages leaves the same status and time if and only if the messages with the greatest timestamp agree on the status. |
| `Redelivery.ReorderKeepsStatus` | database-writer/internal/store/postgres.go:65-68 | The sufficient direction, for one given permutation. |
| `Redelivery.ReorderedRepeatsKeepStatus` | database-writer/internal/store/postgres.go:65-68 | Reordering and repetition together: two deliveries of the same messages, in any orders and multiplicities, on top of any row, leave the same status and time if the newest messages agree. |
| `Lifecycle.StableSortIsAscending` | filter/cmd/dev_lifecycle/main.go:171-177 | The timestamp sort yields ascending timestamps (its own contract: a permutation). |
| `Lifecycle.SortedIsItsOwnSort` | filter/cmd/dev_lifecycle/main.go:171-177 | Messages already in timestamp order are left alone, ties included. |
| `Lifecycle.DropCountNeverExceedsSorted` | database-writer/internal/store/postgres.go:57-60 | For every arrival order `drop_count` is at most what the timestamp-sorted arrival counts, and the whole row is the same when arrival is sorted. |
| `Lifecycle.ReactivationCountCanExceedSorted` | database-writer/internal/store/postgres.go:61-64 | No such bound holds for reactivations in general: for every third status, null included, three messages for which the live count is 1 and the sorted count 0. |
| `Lifecycle.InsertKeepsReturns` | database-writer/internal/store/postgres.go:61-64 | With only DROPPED and ACTIVE around, sorting a late message in never loses a return. |
| `Lifecycle.ReactivationsAreBoundedIff` | database-writer/internal/store/postgres.go:57-67 | When it does hold: over a set of statuses every arrival order counts at most the reactivations of the sorted arrival if and only if the set lacks DROPPED, or lacks ACTIVE, or holds nothing else. |
| `Lifecycle.ScanTimeline` | filter/cmd/dev_lifecycle/main.go:179-197 | The scan finds the first drop, flags a later ACTIVE exactly when there is one, and counts the drops with and without an arrival time. |
| `Lifecycle.ReactivationIsConfirmedOffline` | filter/cmd/dev_lifecycle/main.go:171-212 | For every arrival order, `reactivation_count > 0` implies that the sorted report marks the flight as DROPPED then ACTIVE. |
| `Columns.ReportConfirmsTheTable` | filter/cmd/dev_lifecycle/main.go:171-212 | The same for the table and the report on the same messages. |
| `Tables.RecordEachConcat` | database-writer/internal/store/postgres.go:80-142 | Batch boundaries do not matter: recording two batches one after the other is recording their concatenation. |
| `Tables.FlightsAreIndependent` | database-writer/internal/store/postgres.go:44-69 | A row of `flights` depends on the messages of its own GUFI only, in their order. |
| `Tables.DistinctStandsForAll` | database-writer/internal/store/postgres.go:93-102 | Upserting each airport of the deduplicated map once gives every code the row that upserting all mentions in order would, and the map holds exactly the non-empty codes mentioned. |
| `Tables.RecordEachByTable` | database-writer/internal/store/postgres.go:80-142 | One message at a time equals table by table: all airports, then all flights, then all positions. |
| `Tables.FlightUpsertIsSound` | database-writer/internal/migrate/sql/0001_initial_schema.sql:19-20 | A flight whose airports exist can be upserted on any consistent database and both foreign keys still hold, whichever codes the merge keeps. |
| `Tables.RefusedExactlyWhenBroken` | database-writer/internal/migrate/sql/0001_initial_schema.sql:19-36 | On consistent tables a statement is refused exactly when it would break a foreign key. |
| `Tables.QueueIsSoundAndSequential` | database-writer/internal/store/postgres.go:91-128 | For every order in which the airport map is visited: every prefix of the statement queue satisfies both foreign keys, and the whole leaves the three tables of recording the messages one at a time. |
| `HistoryStore.Store.RecordBatch` | database-writer/internal/store/postgres.go:80-142 | All or nothing under a fault at begin, at any statement, at commit or of the acknowledgement; on success the tables of a one-by-one recording, with one position row appended for each message that carries a position, column by column; foreign keys always. |
| `HistoryStore.BuildQueue` | database-writer/internal/store/postgres.go:91-128 | The queue the loops build is sound at every prefix and amounts to recording one by one. |
| `HistoryStore.CollectAirports` | database-writer/internal/store/postgres.go:95-99 | The `addAirport` loop computes the deduplicated map. |
| `HistoryStore.QueueAirports` | database-writer/internal/store/postgres.go:100-102 | One upsert per distinct code, none twice, in an arbitrary order. |
| `HistoryStore.QueueFlights` | database-writer/internal/store/postgres.go:104-112 | One upsert per message, in message order. |
| `HistoryStore.QueuePositions` | database-writer/internal/store/postgres.go:114-128 | One insert per message with a position, in message order. |
| `HistoryStore.SendBatch` | database-writer/internal/store/postgres.go:130-139 | The statements are executed in order on the transaction's view; without a fault none of them can fail. |
| `Columns.RecordingAppendsPositions` | database-writer/internal/store/postgres.go:114-128 | The k-th appended row holds the k-th carried position: its latitude, longitude and altitude, heading and speed of its motion or null, status null if blank, and the time of the position, else of the flight, else of the clock. |
| `Columns.RowsProposeMessages` | database-writer/internal/store/postgres.go:104-112 | The statements a flight's row receives are its messages in order: every text column null exactly if blank, every time as parsed, the instant from the message or else from the clock. |
| `Columns.FlightColumns` | database-writer/internal/store/postgres.go:44-69 | A new flight's row told from its messages: each identity column is the first text that is not blank or the first time that parsed, status and instant are those of the newest message, the last of ties. |
| `Columns.AirportColumns` | database-writer/internal/store/postgres.go:33-38 | After a batch an airport exists exactly if it did or was named, and each of its coordinates is what was known or else that of the first usable mention, the origin's before the destination's. |
| `WriterRun.StepKeepsOffsets` | database-writer/internal/pipeline/pipeline.go:48-123 | Every step (read, write attempt, commit, restart) keeps the committed offset at or below what has been applied, and what was applied stays applied. |
| `WriterRun.ClocksDoNotMatter` | database-writer/internal/store/postgres.go:180-185 | With parseable timestamps the fallback clock readings have no effect on any table. |
| `WriterRun.RedeliveredMessageIsNoOp` | database-writer/internal/store/postgres.go:33-69 | Under the tie rule a message recorded before changes neither flights nor airports. |
| `WriterRun.RedeliveryOfManyIsNoOp` | database-writer/internal/store/postgres.go:33-69 | The same for any sequence of recorded messages, in any order and with any repetition. |
| `WriterRun.EveryRunIsASinglePass` | database-writer/internal/pipeline/pipeline.go:48-123 | In every run with crashes, lost commits and writes that were applied but reported failed, `flights` and `airports` are those of one in-order pass over the messages applied so far, if ties agree. |
| `WriterRun.CommittedGroupIsASinglePass` | database-writer/internal/pipeline/pipeline.go:48-123 | For a group that has an offset: from there to the highest offset ever applied, in every run. |
| `WriterRun.PositionsAreKeptAtLeastOnce` | database-writer/internal/store/postgres.go:71-73 | In every such run each applied message with a position is in `positions` at least once (as multisets, on top of what was there). |
| `WriterOnce.CarefulRunsRecordExactlyOnce` | database-writer/internal/pipeline/pipeline.go:48-123 | In every run in which commits land, no write is applied and reported failed, and restarts come between batches: the three tables are those of recording each message exactly once, ties or no ties, and between batches the committed offset is where the reader stands. |
| `WriterExactness.DisagreeingTieBreaksARun` | database-writer/internal/pipeline/pipeline.go:48-123 | If two messages of a flight share a leading timestamp and differ in status, some run with one crash ends in different tables. |
| `WriterExactness.SinglePassExactlyWhenTiesAgree` | database-writer/internal/pipeline/pipeline.go:48-123 | All runs of a group with a committed offset end in the tables of a single pass if and only if no such tie exists in the log. |
| `WriterLoop.ParseBatch` | database-writer/internal/pipeline/pipeline.go:65-85 | Flights keep their order; every message is recorded, poison or skipped, exactly one of the three, and the counters say how many; the poison offsets come out in increasing order, dead-lettered if that publication succeeds and lost if it fails. |
| `WriterLoop.WriteUntilDurable` | database-writer/internal/pipeline/pipeline.go:87-102 | Whatever the database does to the attempts, the loop ends once it recovers, and flights and airports are those of one write of the batch if ties agree. |
| `WorkerPool.StepKeepsInFlight` | filter/internal/pipeline/filter.go:111-124 | Every step keeps the bookkeeping: channel contents, WaitGroup count and busy workers add up to the batch, and nothing is in flight between batches. |
| `WorkerPool.StepKeepsExactlyOnce` | filter/internal/pipeline/filter.go:81-84 | Every offset handed out is held by exactly one worker or has finished exactly once since the batch was fetched. |
| `WorkerPool.BarrierMeansAllFinished` | filter/internal/pipeline/filter.go:117 | When the WaitGroup opens, the channel is empty, no worker is busy and each offset of the batch has finished exactly once, no other having finished. |
| `WorkerPool.StepKeepsFlag` | filter/internal/pipeline/filter.go:120 | The flag is raised exactly when some message of the current batch failed. |
| `WorkerPool.StepKeepsAccounts` | filter/internal/pipeline/filter.go:119-125 | Every step keeps: each offset below the committed one was handled or failed in a session that later committed beyond it, and no commit lies beyond the committed offset. |
| `WorkerPool.StepKeepsEvents` | filter/internal/pipeline/filter.go:93-126 | Every step keeps: between two crashes no offset finishes twice, and after a commit only offsets from there on finish. |
| `WorkerPool.StepKeepsLists` | filter/internal/pipeline/filter.go:170-187 | Every step keeps: whatever is about to be or has been published passed a list at least as new as the one at the head of its batch. |
| `WorkerPool.StepKeepsLoads` | filter/internal/pipeline/filter.go:93-99 | Every step keeps: every list in use is one file's lines with that file's date, and the list at the head of every batch of the filter passed the readiness check at that moment. |
| `WorkerPool.StepKeepsTallies` | filter/internal/pipeline/filter.go:154-186 | Every step keeps: each counter is the number of messages of the session that ended that way. |
| `WorkerPool.EveryRunKeepsTheInvariant` | filter/internal/pipeline/filter.go:93-126 | All of the above, in every reachable state under every interleaving of dispatcher, workers, reloads, failed commits and crashes. |
| `PoolGuarantees.CommittedOffsetsHaveExactlyOneFate` | filter/internal/pipeline/filter.go:119-125 | In every run each offset below the committed one has exactly one of two fates: it was forwarded, blocked or dead-lettered and then committed by the same session, or it failed and a later batch of the same session committed past it. One that never ended well in any session is of the second kind. |
| `PoolGuarantees.WithoutFailuresNothingIsLost` | filter/README.md:58-60 | In a run without a failed message everything below the committed offset was forwarded, blocked or dead-lettered and then committed. |
| `PoolGuarantees.FailedBatchCanBeCommittedPast` | filter/README.md:58-60 | In every configuration that checks no list there is a run in which message 0 failed, was never handled, and the committed offset is 2. |
| `PoolGuarantees.CommitOnlyAfterAllFinishedWell` | filter/internal/pipeline/filter.go:117-124 | The committed offset moves only to the end of a batch each of whose messages has finished exactly once, and none badly. |
| `PoolGuarantees.CountersBalanceAtBarrier` | filter/internal/pipeline/filter.go:150-187 | At every barrier: flights = parse errors + blocked + forwarded + publish errors, each counter being the number of messages of the session that ended that way. |
| `PoolGuarantees.SomeWorkIsAlwaysEnabled` | filter/internal/pipeline/filter.go:75-117 | No deadlock: with at least one worker, until the barrier opens the dispatcher or some worker can move. |
| `PoolGuarantees.WorkDecreasesRemaining` | filter/internal/pipeline/filter.go:75-117 | Every such move decreases a natural number, and a reload leaves it alone, so the barrier opens after finitely many moves. |
| `PoolGuarantees.ForwardedFlightsPassedAFreshList` | filter/internal/pipeline/filter.go:170-187 | Every forwarded flight was looked up in a list at least as new as the one at the head of its batch and is not on it; in the filter that first list was loaded, named something and was not older than allowed at that clock time, and the list looked up is one file's lines with that file's date. |
| `PoolGuarantees.OutcomeIsDecided` | filter/internal/pipeline/filter.go:161-187 | In every run a message is quarantined or fails to be exactly when it cannot be parsed, an envelope is suppressed exactly when it is empty, a flight exactly when a line of the list looked up is its call sign or registration up to case and space; what is published is published whole. |
| `PoolGuarantees.FailuresAreThoseReported` | filter/internal/pipeline/filter.go:161-187 | A run has exactly as many failed messages as quarantines and publications were reported failed to it. |
| `PoolGuarantees.LastInstalledIsInEffect` | filter/internal/ladd/store.go:34-50 | The list in use is the one the last reload or restart installed. |
| `PoolGuarantees.FlightCanBeHandled` | filter/internal/pipeline/filter.go:93-126 | An idle filter with a ready list can take the next flight, forward it if it is not on the list, and commit it either way. |
| `PoolGuarantees.NewerListCanBeInstalled` | filter/internal/ladd/store.go:38-50 | A list that loads and is newer can be installed at any moment, and is then the one in use. |
| `PoolOrder.BatchOutputIsAPermutation` | normalizer/internal/pipeline/normalizer.go:102-115 | When a barrier opens, what the batch has put on the output topic, failed publications that landed in full or in part included, is a permutation of the same flights in log order. |
| `PoolOrder.OutputNeverCrossesBatches` | normalizer/internal/pipeline/normalizer.go:89-117 | Within a session everything that finished before the batch was fetched has a smaller offset, and everything since lies in the batch. |
| `PoolOrder.PoolKeepsStatus` | normalizer/internal/pipeline/normalizer.go:89-117 | In every run of a pool, crashes and redelivery included, for every flight and every row it starts from: if the flight's newest messages among those that reached the topic agree, its row ends with the status and time those messages give, each once, in log order. |
| `PoolOrder.BothPoolsKeepStatus` | filter/internal/pipeline/filter.go:93-126 | The same for the filter reading what the normalizer has written, over any pair of runs, against the order of the normalizer's own input. |
| `PoolExactness.DeliverTwo` | normalizer/internal/pipeline/normalizer.go:110-115 | For any two flights of a log and any pool that checks no list there is a run whose output topic holds exactly these two, in the given order: only the first lands, a crash before anything is committed, only the second lands. |
| `PoolExactness.PoolsKeepStatusExactlyWithoutClash` | normalizer/internal/pipeline/normalizer.go:89-117 | For one flight, one log and any one configuration that checks no list: every run leaves the status and time that log order gives if and only if no two of the flight's messages share a timestamp and differ in status. |
| `PoolInterleaving.Overtaken` | normalizer/internal/pipeline/normalizer.go:71-82 | With two workers a message can be overtaken by everything behind it in its batch, without a failure or a crash. |
| `PoolInterleaving.InterleavingAloneShowsAClash` | normalizer/internal/pipeline/normalizer.go:71-115 | For two messages that fit one batch, newest of the flight, with one timestamp and two statuses, any pool with two workers has a run without failure or crash that leaves the other status. |
| `EndToEnd.HistoryFollowsTheFeed` | database-writer/internal/pipeline/pipeline.go:48-123 | Normalizer, filter and database-writer, each after any run of its own: if messages of one flight with one timestamp carry one status, the stored status and time of every flight are those its messages that came all the way give, each once, in the order of the normalizer's input. |
| `LaddList.NewSet` | filter/internal/ladd/ladd.go:9-17 | The set holds the normalised non-blank identifiers. |
| `LaddList.CollectIds` | filter/internal/ladd/loader.go:80-88 | The scan collects the trimmed lines that are neither blank nor comments. |
| `LaddList.KeysAreEntries` | filter/internal/ladd/ladd.go:9-17 | Collecting and then normalising yields exactly the normalised listed lines. |
| `LaddList.LoadLines` | filter/internal/ladd/loader.go:73-93 | Loading a file yields exactly its listed identifiers, normalised. |
| `LaddList.PassesIffNoListedLineMatches` | filter/internal/ladd/ladd.go:26-44 | A flight passes if and only if no listed line normalises to its call sign or registration. |
| `LaddList.NormalizeIffMatches` | filter/internal/ladd/ladd.go:42-44 | Normal forms are equal exactly for texts that are the same up to the case of letters and surrounding space. |
| `LaddList.BlocksIffOnList` | filter/internal/ladd/ladd.go:26-44 | A flight is blocked exactly when some listed line is one of its two identifiers up to case and space. |
| `LaddList.ReadyMeans` | filter/internal/ladd/store.go:56-69 | Ready exactly for a list that was loaded, names something and is not older than allowed. |
| `LaddList.ReadyUntilTooOld` | filter/internal/ladd/store.go:64 | A list that is ready stays so exactly until it is too old, and for good if no age is set. |
| `LaddList.EntriesEmptyIffCountZero` | ladd-admin/internal/validate/validate.go:67-78 | The set is empty if and only if the upload check counts no entry. |
| `LaddNames.CandidatesAreDistinct` | filter/internal/ladd/promote.go:83-95 | The names tried for a file are pairwise different. |
| `LaddNames.UniqueName` | filter/internal/ladd/promote.go:83-95 | The search ends within one try more than there are names, on the candidate of least index that is free. |
| `LaddNames.DateReadsBack` | filter/internal/ladd/loader.go:61-71 | Eight digits before the ending are read as year, month and day in this order, midnight of that day, or as no date if there is no such day. |
| `LaddNames.OnlyWrittenDates` | filter/internal/ladd/loader.go:61-71 | Only names that end in such a date have one. |
| `LaddNames.LaterDateIsNewer` | filter/internal/ladd/loader.go:53 | The order of two names' dates is the order of the calendar. |
| `LaddNames.ListNames` | filter/internal/ladd/loader.go:46-55 | A list's name starts with the lists' prefix and ends in a date after the zero time. |
| `LaddNames.CandidateOf` | filter/internal/ladd/promote.go:87-91 | The number goes between the stem and the extension, or after a name that has none. |
| `Calendar.InstantsCountSeconds` | filter/internal/ladd/loader.go:66 | Instants count the seconds of the Gregorian calendar from the first of January of the year 1, across minutes, hours, days, months and years. |
| `LaddFiles.RenameKeepsFiles` | filter/internal/ladd/promote.go:68-76 | A rename onto a free name loses and overwrites no file. |
| `LaddFiles.LaddDirs.MoveInto` | filter/internal/ladd/promote.go:68-76 | A move lands on a free name of the target directory, the file's own if it is free, or changes nothing. |
| `LaddFiles.LaddDirs.NewestDated` | filter/internal/ladd/loader.go:32-59 | A dated list than which no other is later in the calendar, or no name exactly when there is none. |
| `LaddFiles.ArchivingKeepsNewest` | filter/internal/ladd/promote.go:52-66 | Archiving anything but the newest active list keeps the active directory as new as it was. |
| `LaddFiles.PromotionIsNewer` | filter/internal/ladd/promote.go:42-44 | After moving in something newer than every active list, the active directory is at least as new and the promoted name is its newest. |
| `LaddFiles.LaddDirs.ArchiveLadd` | filter/internal/ladd/promote.go:52-66 | Exactly the LADD files other than `keep` whose move succeeded have left the directory; other directories only gain archived files; the active directory never gets older on the way. |
| `LaddFiles.LaddDirs.PromoteStaged` | filter/internal/ladd/promote.go:42-44 | The staged name is free in the active directory, so the list keeps its name there and `keep` protects it. |
| `LaddFiles.LaddDirs.Promote` | filter/internal/ladd/promote.go:23-50 | Whatever subset of the moves fails: no file lost or overwritten, the active directory never older after any rename. A list is promoted, or its move fails, exactly when some staged list is newer than everything active; then it is the newest, is the staged file, and of the other LADD files exactly those whose move failed are still there. Otherwise only the archive grows. Successful moves shrink a non-empty staging. |
| `LaddFiles.LaddDirs.PromoteRepeatedly` | filter/internal/ladd/promote.go:23-50 | The same over any number of calls, and as many successful calls as there are dated files empty staging of them. |
| `LaddStore.LoadLatest` | filter/internal/ladd/loader.go:16-30 | Loads one newest dated list, its lines together with its own date; fails only if there is none or a line of it is too long. |
| `LaddStore.Store.Reload` | filter/internal/ladd/store.go:38-50 | Installs a strictly newer list, set and date of one file, whenever there is one and it can be read; the installed date never goes back and the directories lose nothing. |
| `LaddStore.Store.CheckReady` | filter/internal/ladd/store.go:56-69 | The gate opens exactly in dev mode or for a list that was loaded, names something and is not older than allowed. |
| `LaddStore.CountEntries` | ladd-admin/internal/validate/validate.go:67-78 | Counts the listed lines the scanner delivers. |
| `LaddStore.BaseName` | ladd-admin/internal/validate/validate.go:48-53 | The longest ending of the name without a slash or backslash. |
| `LaddStore.ScanUndoesWriting` | filter/internal/ladd/loader.go:80-91 | Lines that fit are read back as they were written. |
| `LaddStore.ScanReadsLine` | filter/internal/ladd/loader.go:80-91 | The scanner goes on line by line and stops at a line of 65536 bytes or more. |
| `LaddStore.ScanDropsReturn` | filter/internal/ladd/loader.go:80-91 | A carriage return before a line end is not part of the line. |
| `LaddStore.WidthIsLeast` | filter/internal/ladd/loader.go:81 | A character counts the fewest bytes UTF-8 can hold it in (section 3 of RFC 3629). |
| `LaddStore.Check` | ladd-admin/internal/validate/validate.go:20-46 | Accepts exactly the uploads with the right name, a past date within the maximum age and at least one entry, and reports that name, date and count. |
| `LaddStore.AcceptedUploadIsReadyIff` | ladd-admin/internal/validate/validate.go:20-78 | An accepted upload, alone in the active directory, makes a starting filter ready at the same clock and age if and only if its date is after the zero time and no line overflows the scanner; what is loaded has the same date and an entry. |
| `RedisView.KeyFollowsLastTouch` | cache-writer/internal/store/redis.go:38-67 | A key is held exactly when the last message that touched the flight was an upsert, and expires one TTL after it. |
| `RedisView.VisibleIffLastTouchIsFreshUpsert` | cache-writer/internal/pipeline/pipeline.go:89-120 | At any clock time a flight is visible if and only if the last position-carrying ACTIVE or non-ACTIVE message applied for it was an upsert younger than the TTL. |
| `RedisView.HashFollowsHistory` | cache-writer/internal/store/redis.go:40-63 | Every plain field shows the last upsert, field by field; heading and speed those of the newest upsert that had them while the key lived on without a gap, else absent. |
| `RedisView.VisibleFlightIsActiveInDatabase` | cache-writer/internal/pipeline/pipeline.go:89-120 | If a flight's messages come in timestamp order and both writers applied the same prefix, a visible flight is ACTIVE in the database. |
| `CacheWriter.Cache.UpsertFlight` | cache-writer/internal/store/redis.go:38-63 | The key shows the message field by field, keeps heading and speed of a live key if the message has none, expires one TTL later, and no other key changes; all of it or nothing, even if the reply is lost. |
| `CacheWriter.Cache.DeleteFlight` | cache-writer/internal/store/redis.go:65-67 | The key and no other is removed, or nothing is. |
| `CacheWriter.Cache.Process` | cache-writer/internal/pipeline/pipeline.go:63-121 | The keys always equal the replay of the messages that reached the store; the offset is committed unless the write or the quarantine failed; each message is counted once, under the heading it belongs to. |
| `CacheLoop.Turn` | cache-writer/internal/pipeline/pipeline.go:49-60 | One turn of the loop takes the state machine one step and the store with it. |
| `CacheLoop.StepKeepsInvariant` | cache-writer/internal/pipeline/pipeline.go:43-61 | Every step, a restart without a committed offset included, keeps what the session has finished, the order of finishes and commits, and the fate of everything between where reading began and the committed offset. |
| `CacheLoop.CacheOffsetsHaveExactlyOneFate` | cache-writer/internal/pipeline/pipeline.go:63-126 | In every run, for groups with and without an offset: an offset was processed well and then committed by the same session, or failed there and was committed past, if and only if it lies between where reading began and the committed offset, and never both. |
| `CacheLoop.FirstMessagesCanBeSkipped` | cache-writer/internal/kafka/consumer.go:25 | A group without an offset starts at the end of the topic again: a run in which message 0 failed, message 1 is committed, and message 0 was neither handled nor committed past. |
| `LiveView.StepKeepsView` | cache-writer/internal/pipeline/pipeline.go:89-120 | Every step keeps: what lies behind the reader has been redone after everything older, so the last delivery decides. |
| `LiveView.CaughtUpViewShowsTheLog` | cache-writer/internal/pipeline/pipeline.go:89-120 | After any run of the cache-writer, once it has caught up and no write for the flight was lost: the flight is visible if and only if the newest message of the log that touches it is an upsert whose last delivery is younger than the TTL. |
| `LiveView.StatusAfterAnyRun` | database-writer/internal/store/postgres.go:65-68 | In every state the database-writer can reach, from any database and with or without an offset: a flight whose messages come in timestamp order has the status of the last one, unless the database held a newer row. |
| `LiveView.VisibleFlightIsActiveAfterAnyRuns` | cache-writer/internal/pipeline/pipeline.go:89-120 | Both writers after any runs of their own from a common offset: once the cache-writer has caught up with the database-writer and lost no write for the flight, and the flight's messages come in timestamp order, a visible flight is ACTIVE in the database. |
| `FieldSummary.AddSample` | tools/internal/accumulator/accumulator.go:84-94 | A value is appended unless it is there or five are. |
| `FieldSummary.AddValue` | tools/internal/accumulator/accumulator.go:51-82 | The step of the summary, branch by branch. |
| `FieldSummary.SummaryIsExact` | tools/internal/accumulator/accumulator.go:51-104 | After any values: truncated if and only if more than `maxEnum` distinct categorical values were seen, otherwise their exact histogram; exact kind counts; the first five distinct values as samples. |
| `Census.JoinIsInjective` | tools/internal/accumulator/accumulator.go:137-139 | Distinct stacks of slash-free names have distinct paths. |
| `Census.PathsNeverCollide` | tools/internal/accumulator/accumulator.go:137-147 | Elements and attributes at different places never share a path, XML names containing neither slash nor at-sign (section 2.3 of XML 1.0). |
| `Census.Accumulator.TouchPath` | tools/internal/accumulator/accumulator.go:167-176 | Creates or counts the field and leaves the others alone. |
| `Census.Accumulator.Observe` | tools/internal/accumulator/accumulator.go:119-165 | Folds a document in: the fields are those of applying its events in order; on malformed input, of the tokens before the error. |
| `Census.FieldsAreIndependent` | tools/internal/accumulator/accumulator.go:119-176 | A field exists exactly if its path was touched, counts the touches, and summarises the values of its path and nothing else. |
| `Census.FieldRemembersTouches` | tools/internal/accumulator/accumulator.go:167-176 | A field keeps the kind and time of its first touch and the time of its last. |
| `Census.EveryFieldIsExact` | tools/internal/accumulator/accumulator.go:51-176 | After any documents every field is the exact bounded summary of what was seen at its path. |
| `CensusPlaces.EveryPlaceIsExact` | tools/internal/accumulator/accumulator.go:119-176 | After any documents with XML names: an element or attribute has a field if and only if it occurred, and the field counts exactly its start tags (or the attributes of its name on them) and summarises exactly the character data directly under it (or those values), nothing from anywhere else. |
| `CensusTrees.NodesReturn` | tools/internal/accumulator/accumulator.go:136-164 | After any whole nodes the reader is where it was before them. |
| `CensusTrees.ContentsAreReadInside` | tools/internal/accumulator/accumulator.go:136-164 | What is read inside an element, after any of its contents, is read at that element's place. |
| `Census.RoundTrip` | tools/internal/accumulator/accumulator.go:38-49 | Saving and loading a field gives it back if and only if its maps are absent rather than empty. |
| `Census.RestartChangesNothing` | tools/internal/accumulator/accumulator.go:191-233 | Saving, loading and going on equals never having stopped, for every split of every stream. |
| `Positions.LatestForHistory` | database-writer/internal/flight/flight.go:151-164 | Keeps the last of the usable positions with the greatest timestamp string, or none if none is usable. |
| `Positions.LatestForCache` | cache-writer/internal/flight/flight.go:95-108 | The same position, with its altitude unit. |
| `Positions.LatestUsableIsUnique` | cache-writer/internal/flight/flight.go:95-108 | There is only one such position, so both loops choose the same one. |
| `Positions.StringOrderIsTimeOrder` | database-writer/internal/flight/flight.go:156 | For timestamps of the form `YYYY-MM-DDThh:mm:ssZ` string order is instant order, through the calendar (section 5.1 of RFC 3339). |
| `Positions.KeptPositionIsChronologicallyLatest` | database-writer/internal/flight/flight.go:151-164 | With such timestamps the kept position is the latest in time, the last of ties. |
| `Positions.FractionalOrderIsTimeOrderIff` | database-writer/internal/flight/flight.go:156 | With fractions of a second, string order agrees with time order on two timestamps if and only if their whole seconds differ or neither fraction is a proper prefix of the other, no fraction counting as the empty one. |
| `Positions.MixedFormsKeepTheOlder` | database-writer/internal/flight/flight.go:151-164 | Of a whole second followed by any later fraction of it the loops keep the whole second, the older position. |
| `Positions.KeptIsLatestInTimeIff` | database-writer/internal/flight/flight.go:151-164 | Over a set of times the loops keep the chronologically latest position, the last of ties, of every list if and only if the times are pairwise comparable in that sense. |
| `Migrate.SortIsAscending` | database-writer/internal/migrate/migrate.go:109 | Files with distinct versions come out strictly ascending (the function's own contract: a permutation). |
| `Migrate.EveryRunAppliesAPrefix` | database-writer/internal/migrate/migrate.go:30-81 | For any number of racing and failing instances the recorded versions are at every moment a prefix of the sorted list, each once and ascending; no two instances are at work together, and the lock is free exactly when none is. |
| `Migrate.FinishingMeansUpToDate` | database-writer/internal/migrate/migrate.go:55-80 | An instance that reaches the end has recorded every migration. |
| `Migrate.AnInstanceCanBringItUpToDate` | database-writer/internal/migrate/migrate.go:30-81 | Whenever the lock is free, an instance that starts can record every migration and free the lock again. |
| `Migrate.Run` | database-writer/internal/migrate/migrate.go:55-80 | One instance extends a recorded prefix to a longer one: to the end, or by exactly the migrations that got through before the failure. |
| `Migrate.QuotedNameReadsBack` | database-writer/internal/migrate/migrate.go:113-115 | Read as a standard string constant (section 4.1.2.1 of the PostgreSQL manual) the quoted name is the name, and the constant ends where the quote does. |
| `ReplaySplit.ReplayFile` | bridge/src/main/java/com/naspipeline/bridge/ReplayRunner.java:104-122 | The line loop publishes what feeding the lines one by one yields, the trailing record included. |
| `ReplaySplit.LinesEndThreeWays` | bridge/src/main/java/com/naspipeline/bridge/ReplayRunner.java:105-108 | A line ends in LF, in CR or in CR LF, and a CR before an LF is not a line of its own. |
| `ReplaySplit.OnlyStrippedRecordsAreSent` | bridge/src/main/java/com/naspipeline/bridge/ReplayRunner.java:124-136 | Whatever a file holds, no blank record is published, and none with space around it. |
| `ReplaySplit.SplittingUndoesPrinting` | bridge/src/main/java/com/naspipeline/bridge/ReplayRunner.java:104-136 | For any list of non-empty stripped records without separator line or carriage return, replaying the printed text publishes exactly that list, whether the text ends in a separator line, right after its marker, in a line end or right after the last record. |
| `ReplaySplit.ReplayFiles` | bridge/src/main/java/com/naspipeline/bridge/ReplayRunner.java:82-85 | One pass over the files publishes their records file by file. |
| `ReplaySplit.AnyCutReplaysTheSame` | bridge/src/main/java/com/naspipeline/bridge/ReplayRunner.java:82-122 | However the list is cut into files at record boundaries, and however each file ends, the same records are published in the same order. |

## Left out

- The Kafka, Redis, Postgres, JMS and Kubernetes clients: each is a log, a map or a set of tables with
  nondeterministic failure.
- XML and JSON decoding (`ParseEnvelope`, `EncodeOne`, `json.Unmarshal`): the model starts from token
  streams and typed records, with unparseable input as its own case.
- Clocks: every reading is a parameter or a component of the input. The wall-clock columns
  `first_seen` and `last_seen` and the column `airports.name`, which no statement sets, are not modelled.
- The 32-bit range of `drop_count` and `reactivation_count`, and 64-bit counters and durations: all are
  unbounded here.
- Floating point: `velocity`, `atan2`, `hypot` and number parsing are opaque; coordinates are reals.
- The `copyFile` fallback of `moveInto` (`filter/internal/ladd/promote.go:77-80`), where a partial copy
  can be left behind: a move is a rename that succeeds or fails.
- Errors of reading a directory, and the order in which a directory or a Go map is visited, which is
  left arbitrary; where several lists share the newest date, any of them may be taken.
- Directories that sit in the active directory under the name of a dated list:
  `LaddFiles.LaddDirs.Promote` and its callers take their absence as a precondition.
- Several partitions and consumer-group rebalancing.
- The regular expressions of `classify` (`tools/internal/accumulator/accumulator.go:242-263`): any total
  function into kinds.
- The census commit loop, the tree printers of `dev_census`, the api service, the web front end, HTTP and
  cryptography in ladd-admin, metrics, logging and configuration: no hard property, or none that holds.
- The fetch loops with their flush timeout: a batch is any non-empty run of at most `batchSize` messages.
- LiveView.VisibleFlightIsActiveAfterAnyRuns: for groups that have an offset, the same for both. A group that
  starts at the end of the topic can miss messages the other service reads, and then the two can differ.
- EndToEnd.HistoryFollowsTheFeed: the database-writer has an offset and has been offered everything the filter
  has written so far; poison on the way is dead-lettered by the pools and not part of the topics after them.
- Aliasing of `*Field` in the accumulator: fields are values in a map, updated by path, which is how every
  caller reaches them.
- The in-place `sort.Slice` of the report and of the migration files: stable insertion on sequences, so
  the algorithm of the library is not modelled, only its result under a total order.
- LaddStore.AcceptedUploadIsReadyIff: contents are characters, counted by their width in UTF-8; bytes that are
  not UTF-8 are not modelled.
- LaddList.LoadLines: upper-casing is modelled for the letters a to z only, so identifiers with letters
  outside ASCII are compared as they stand.
- LaddList.PassesIffNoListedLineMatches: the same restriction on upper-casing.
- PoolGuarantees.CountersBalanceAtBarrier: an envelope the normalizer cannot encode counts as a parse
  error here, whereas its statistics count it under no heading.
- PoolGuarantees.ForwardedFlightsPassedAFreshList: the readiness check and the fetch it precedes are one
  step; a reload between the two is a reload right after them. Dev mode, in which the gate always opens
  on an empty list, is a pool without a gate.
- PoolOrder.BatchOutputIsAPermutation: the flights of one publication that land do so in order and once; a
  second copy written by the client's own retry is not modelled.
- WriterRun.EveryRunIsASinglePass: timestamps are assumed parseable. A message without one is recorded
  under the clock of the attempt, so a redelivery of it is a different message.
- WriterRun.PositionsAreKeptAtLeastOnce: `positions` is a plain INSERT, so redelivery adds copies and no
  upper bound holds in general; `WriterOnce.CarefulRunsRecordExactlyOnce` says when each is there once.
- WriterExactness.SinglePassExactlyWhenTiesAgree: for groups that have a committed offset. A group without
  one starts at the end of the topic after every restart; `WriterRun.EveryRunIsASinglePass` covers it.
- WriterLoop.WriteUntilDurable: the batch carries fixed clock readings, which is exact when its timestamps
  parse (`WriterRun.ClocksDoNotMatter`).
- Lifecycle.ReactivationIsConfirmedOffline: both programs see the same instant for a message, which is so
  when its timestamp parses.
- RedisView.VisibleFlightIsActiveInDatabase: both services decode a message to the same GUFI and status,
  every message of the prefix is parseable, and the cache-writer has applied each message once.
- Positions.StringOrderIsTimeOrder: for years 0 to 9999 and whole seconds without leap seconds.
- Positions.FractionalOrderIsTimeOrderIff: for times in UTC, with a fraction of any length at its exact value.
- ReplaySplit.SplittingUndoesPrinting: characters are code points, and `rewriteTimestamps`, which returns
  its argument, is left out.
