# Verification of the nyuka service

A Dafny 4.11 model of the parts of the nyuka manga server whose correctness spans several
functions, several workers or several stores, with proofs about every input, every run or every
reachable state. `dafny verify dfyconfig.toml` checks the whole project.

## What is modelled

**The job engine** (`JobTable`, `JobEngine`, `JobAttempts`, `JobDelays`, `JobWorker`, `JobShutdown`,
`JobBatch`, `Scheduler`).
Each SQL statement is one atomic step on a table of rows; workers, cancels, stale-lock recovery,
pruning, scheduler ticks, shutdown and crashes interleave freely over one monotone clock in
microseconds. `fail` is two steps, as it is two statements. Exclusion, the attempts bound, once per
period and the drain guarantee are proved over whole runs, and the worker's loop is a method that takes
the protocol's steps. What each one rests on is made exact:
exclusion on handlers that end within the stale timeout, once per period on the retention being at
least the period less a microsecond, the drain on how many claims were already in flight.

**Keyset pagination and join counts** (`Keyset`, `KeysetWalk`, `Repository`, `Aggregates`,
`LikePattern`, `MangaSummaries`). The page query refines the sorted list of the wanted rows; a walk
over a table that keeps changing is exact as long as no cursor row is deleted; the statement built
from optional filters means what the caller asked for; the left-join aggregates are cardinalities.

**Crash-ordered persistence** (`Paths`, `ChapterPaths`, `ChapterPlacement`, `LibraryStore`,
`SourceSettings`, `SourceRegistry`). Chapter archives are built in staging and renamed; sources live
in rows, packages and loaded modules that stay nested at every moment of every install, uninstall
and restart.

**Translators, printers and streams** (`DatePattern`, `JsonValue`, `Redaction`, `RedactingWriter`,
`ComicInfo`, `ComicInfoRecord`, `CbzArchive`, `ChapterRead`). The date pattern compiler, the redaction of JSON, URLs and
log streams, the metadata printer against an independent XML reader, archive naming and order, and
range reads.

**Arithmetic** (`JobMetrics`, `NetworkMask`, `ClientIp`, `Decimal`). Nearest-rank percentiles and
window accounting, prefix masks on octets against division of numbers, and forwarded-hop resolution.

## What does not hold outright

Each of these is a theorem of the model with a concrete witness, next to the exact condition.

- A handler that outlives the stale timeout shares its job with another worker
  (`JobAttempts.LateHandlerSharesItsJob`).
- A job whose `max_attempts` is 0 still runs once (`JobAttempts.AllowingNoneRunsOnce`).
- A job is announced and counted as failed although its row still runs when the statement that records
  the failure fails itself, and can be again (`JobWorker.FailureAnnouncedTwice`).
- After the shutdown token fires a claim already in flight can still land
  (`JobShutdown.AClaimCanLandWhileDraining`), so "nothing new is claimed" holds for later looks at the
  token only.
- A schedule period below one second is accepted with a retention shorter than the second its key
  spans (`Scheduler.SubSecondPeriodIsAccepted`), and a follow's own interval is not checked against
  the retention at all (`Scheduler.DefaultRetention`).
- A walk whose cursor row was deleted ends early with an empty page, and misses exactly the rows beyond
  that cursor (`KeysetWalk.DeletedCursorHidesRows`, `KeysetWalk.WalkIsExact`).
- A literal percent sign before quoted text can make a date pattern look as if it had a time
  (`DatePattern.PercentBeforeQuotedHour`).
- Truncation can leave a trailing dash or uncover a name reserved on Windows, and only then does
  sanitizing again change a name (`Paths.DashAfterCutting`, `Paths.ReservedAfterCutting`,
  `Paths.SanitizingAgain`).
- Different chapters of a series share one file name exactly when the 255-byte limit leaves the same of
  their volume and number (`ChapterPaths.StemsOfOneSeries`): a title of 250 bytes keeps the volume only,
  so all chapters of a volume overwrite one another (`ChapterPaths.ChaptersShareAFile`), and with a title
  of 255 bytes all chapters do, under a name that `.cbz` takes past the limit
  (`ChapterPaths.TitleFillsTheLimit`).
- A carriage return in metadata is read back as a line feed (`ComicInfo.ReturnIsReadAsFeed`,
  `ComicInfo.ReadEscaped`), and U+FFFE or U+FFFF is printed although no XML 1.0 document may hold it
  (`ComicInfo.NonCharacterIsPrinted`, `ComicInfo.EscapedIsText`).
- A package over 32 MiB loads when it is installed and not after a restart
  (`SourceRegistry.OversizedIsNotReloaded`); with the download limit at or below that, as it is by
  default, no history of installs, uninstalls, failures and crashes makes size the reason
  (`SourceRegistry.AidokuRegistry.RestartAfter`).
- Hops put in front of a forwarded header are believed when every hop of the header itself is a
  trusted proxy (`ClientIp.AHopIsBelieved`), and only then (`ClientIp.PrependedHops`).

## Model

| member | source | states |
|---|---|---|
| JobTable.BackoffGrowth | crates/jobs/src/queue.rs:114-121 | the delay grows from one attempt to the next exactly below the tenth and where the jitter wraps round |
| JobTable.BackoffDoubles | crates/jobs/src/queue.rs:114-121 | but for the jitter the delay starts at one second and doubles up to the tenth attempt |
| JobTable.Backoff | crates/jobs/src/queue.rs:114-121 | every delay lies between 1 and 1053 seconds |
| JobTable.PostgresQueue.Enqueue | crates/jobs/src/queue.rs:170-209 | a key already present suppresses the insert and returns the row that carries it; else exactly one new queued row |
| JobTable.PostgresQueue.Exists | crates/jobs/src/queue.rs:216-229 | whether some row carries the key |
| JobTable.PostgresQueue.Claim | crates/jobs/src/queue.rs:234-257 | claims the first row in line by priority and due time among those that are due, counting the attempt and taking the lock, or nothing when none is due |
| JobTable.PostgresQueue.Complete | crates/jobs/src/queue.rs:259-261 | the whole table after completing a job |
| JobTable.PostgresQueue.Cancel | crates/jobs/src/queue.rs:263-265 | the whole table after cancelling a job |
| JobTable.PostgresQueue.SetTerminal | crates/jobs/src/queue.rs:267-282 | a terminal state clears the lock and touches no other row, whatever state the row was in; a missing row changes nothing |
| JobTable.PostgresQueue.Fail | crates/jobs/src/queue.rs:287-314 | the row fails for good exactly when it is not retryable or its attempts are used up, else it is queued again and due after the backoff of its attempts; every other column and row is kept |
| JobTable.PostgresQueue.RecoverStale | crates/jobs/src/queue.rs:320-334 | exactly the running rows locked before the cutoff are queued again, and they are counted |
| JobTable.PostgresQueue.Get | crates/jobs/src/queue.rs:336-348 | the row, or not found |
| JobTable.PostgresQueue.Prune | crates/jobs/src/queue.rs:510-522 | exactly the terminal rows last updated before the cutoff are removed, and they are counted |
| JobTable.InsertKeepsTable | crates/jobs/src/queue.rs:170-209 | inserting keeps keys unique and lock fields set exactly on running rows |
| JobTable.ClaimKeepsTable | crates/jobs/src/queue.rs:234-257 | claiming keeps them |
| JobTable.FinishKeepsTable | crates/jobs/src/queue.rs:267-282 | finishing keeps them |
| JobTable.RequeueKeepsTable | crates/jobs/src/queue.rs:302-314 | queueing again keeps them |
| JobTable.SweepsKeepTable | crates/jobs/src/queue.rs:320-334 | recovery and pruning keep them |
| JobEngine.RunsAreStructured | crates/jobs/src/worker.rs:197-286 | in every state of every run the table is well formed and every task belongs to the pool that is up |
| JobEngine.FreshPoolIs | crates/jobs/src/worker.rs:86-118 | a pool has as many workers as asked for, and at least one |
| JobEngine.StepKeepsExclusion | crates/jobs/src/worker.rs:197-286 | one step keeps exclusion while handlers end in time |
| JobEngine.TimelyRunsAreExclusive | crates/jobs/src/worker.rs:197-286 | when every handler's outcome lands within the stale timeout of its claim, no job ever has two handlers, a handled job is running under its handler's lock, and a queued one has no handler |
| JobAttempts.RunsAreAccounted | crates/jobs/src/queue.rs:234-334 | over every run attempts, claims, recoveries, retries and handlers of a job balance |
| JobAttempts.DelaysAreBounded | crates/jobs/src/queue.rs:302-314 | the delays of a job's retries sum to at most 1053 seconds each |
| JobAttempts.AttemptsAreBounded | crates/jobs/src/queue.rs:234-334 | attempts are the claims, at most the allowed ones plus one per stale recovery, and so bound the total delay |
| JobDelays.RunsKeepDue | crates/jobs/src/queue.rs:302-314 | in every run a row waits for exactly the instant it was enqueued for, or the backoff of its attempts after the failure being retried |
| JobDelays.ClaimsWait | crates/jobs/src/queue.rs:234-314 | in every run no job is claimed before it was due, nor within its backoff after a failure |
| JobAttempts.AllowingNoneRunsOnce | crates/jobs/src/queue.rs:234-257 | a run in which a row that allows no attempt is claimed |
| JobAttempts.LateHandlerSharesItsJob | crates/jobs/src/queue.rs:320-334 | a run in which a late handler shares its job |
| JobWorker.RunWorker | crates/jobs/src/worker.rs:197-286 | whatever others do between its steps, the loop takes steps of the protocol, looks at the token once a pass, never leaves or overtakes a claimable row unless the claim is not answered, ends at its top or stopped, and announces every outcome it reaches, counting each but a retry |
| JobWorker.LookAndClaim | crates/jobs/src/worker.rs:207-224 | from the token to the handler's return, nothing announced yet |
| JobWorker.ClaimNext | crates/jobs/src/worker.rs:212-215 | the claim takes the first row in line, or nothing when there is none or no answer |
| JobWorker.Conclude | crates/jobs/src/worker.rs:222-263 | one report for a handler that returns, none for a panic; when the statements succeed the row holds what was announced |
| JobWorker.RecordFailure | crates/jobs/src/worker.rs:243-263 | a failed job is announced as queued exactly when the failure was retryable and attempts remained, and its row holds that state and the error |
| JobWorker.OthersOnlyStop | crates/jobs/src/worker.rs:120-145 | steps of others leave a task as it is or stop it, and announce nothing for it |
| JobWorker.ClaimsAreAnnounced | crates/jobs/src/worker.rs:212-263 | in every run a task announces the jobs it claimed, each once and in order, but for the one in hand |
| JobWorker.AnnouncedIsWritten | crates/jobs/src/worker.rs:225-263 | what is announced is what the row became, unless the statement failed |
| JobWorker.FailureAnnouncedTwice | crates/jobs/src/worker.rs:243-263 | a run in which one job is announced as failed twice and still runs |
| JobShutdown.ReleaseEmptiesTheTable | crates/jobs/src/worker.rs:147-155 | the release queues again every running row locked before it and no other row |
| JobShutdown.ReleasedPoolsAreDown | crates/jobs/src/worker.rs:120-155 | in every run no task of a released pool is live, and no later task holds a claim older than the release |
| JobShutdown.ReleasedPoolsNeverWrite | crates/jobs/src/worker.rs:120-155 | every write by a worker comes from a pool started after the last release, and finishes a claim made after it |
| JobShutdown.DrainingClaimsAreBounded | crates/jobs/src/worker.rs:197-222 | claims landing after the token are at most those in flight when it fired |
| JobShutdown.AClaimCanLandWhileDraining | crates/jobs/src/worker.rs:197-222 | a run in which one does |
| JobShutdown.WorkerPool.Shutdown | crates/jobs/src/worker.rs:120-155 | how many tasks joined in time, and the table after the release, or the unchanged table when the database refuses it |
| JobShutdown.JoinedInTimeStops | crates/jobs/src/worker.rs:127-139 | joining stops at the deadline or when no task is left |
| JobBatch.EnqueuingAll | crates/jobs/src/scheduler.rs:234-251 | after a list of keyed enqueues every key has a row and no row that was there changed |
| JobBatch.CountedRows | crates/jobs/src/scheduler.rs:248-250 | the counter kept per kind is the number of rows added of that kind |
| JobBatch.EnqueueOnce | crates/jobs/src/scheduler.rs:237-250 | says whether the enqueue inserted |
| JobBatch.EnqueueEach | crates/jobs/src/scheduler.rs:234-251 | the table and counters after the loop; a refused request ends it, leaves what came before it in place, and nothing else ends it on fresh ids |
| JobBatch.SweepAndEnqueue | crates/jobs/src/scheduler.rs:225-276 | one pass: recovery, the schedule, then the follows; refused anywhere it leaves the sweep and the requests up to there |
| JobBatch.TickCoversItsRequests | crates/jobs/src/scheduler.rs:225-276 | every request's key has a row after the pass, and old rows changed by recovery alone |
| JobBatch.TickCountsItsRows | crates/jobs/src/scheduler.rs:225-276 | the report counts the rows added per kind and for follows |
| Scheduler.BucketSpan | crates/jobs/src/scheduler.rs:90-94 | an instant lies in the span of its bucket, zero and sub-second periods included |
| Scheduler.PeriodLengthIs | crates/jobs/src/scheduler.rs:90-94 | a period is whole seconds, and one second below that |
| Scheduler.KindsAreReadBack | crates/jobs/src/queue.rs:61-86 | a stored kind is read back |
| Scheduler.KeyIsInjective | crates/jobs/src/scheduler.rs:90-94 | a key determines its prefix and bucket |
| Scheduler.RunsSpendKeysOnce | crates/jobs/src/scheduler.rs:225-276 | with enough retention no schedule key is inserted twice in any run |
| Scheduler.OncePerPeriodExactly | crates/jobs/src/scheduler.rs:279-299 | one insert per period over all runs, if and only if the retention covers the period |
| Scheduler.PrunedWithinThePeriod | crates/jobs/src/queue.rs:510-522 | with less retention, a run that inserts one key twice |
| Scheduler.InsertRate | crates/jobs/src/scheduler.rs:234-251 | at most (t2 - t1)/every + 2 rows of a kind in any interval |
| Scheduler.AcceptedRetentionIsOncePerPeriod | crates/jobs/src/scheduler.rs:283-299 | an accepted retention gives once per period for every kind of at least a second |
| Scheduler.RetentionIsLonger | crates/jobs/src/scheduler.rs:279-299 | a retention is accepted exactly when it exceeds every period, or is positive when some period is too long to convert |
| Scheduler.SubSecondPeriodIsAccepted | crates/jobs/src/scheduler.rs:283-299 | below a second it does not |
| Scheduler.DefaultRetention | crates/jobs/src/scheduler.rs:55-82 | one day is refused and seven days suffice for the default schedule, but not for longer follow intervals |
| Scheduler.DefaultScheduleIs | crates/jobs/src/scheduler.rs:55-82 | the default kinds, how often, behind what priority and with how many attempts |
| Scheduler.DefaultScheduleRate | crates/jobs/src/scheduler.rs:55-82 | within a day at most 26 rows to prune sessions and three of every other kind |
| Scheduler.TickingScheduler.Tick | crates/jobs/src/scheduler.rs:225-276 | a tick does exactly its pass over the queue, cannot fail on fresh ids unless the database refuses a statement, and then leaves a first part of the pass |
| Scheduler.TickCoversThePeriod | crates/jobs/src/scheduler.rs:225-276 | after a tick every kind has a row for its current period and every due follow one for the current span of its own interval in seconds |
| Scheduler.TicksNameThePeriod | crates/jobs/src/scheduler.rs:234-237 | a tick asks a kind's keys for the current period only, follows included |
| Scheduler.TickRequestsAre | crates/jobs/src/scheduler.rs:234-272 | kind, payload, priority and attempts of what a tick asks for |
| Scheduler.FollowSpans | crates/jobs/src/scheduler.rs:253-259 | two ticks name one check of a follow exactly when they fall in one span of its interval, at least a second |
| Scheduler.FollowsOncePerInterval | crates/jobs/src/scheduler.rs:253-272 | a follow is checked at most once per span of its interval over all runs, if and only if the retention covers it |
| Scheduler.TicksNameTheInterval | crates/jobs/src/scheduler.rs:253-259 | a tick asks a follow's keys for the current span only |
| Scheduler.TickIsARun | crates/jobs/src/scheduler.rs:225-276 | a tick is a stretch of any run and keeps it on schedule |
| Keyset.ListingOrder | crates/persistence/src/repository.rs:470-494 | (key, id) in one direction is a strict total order |
| Keyset.SortIsListed | crates/persistence/src/repository.rs:479-484 | sorting lists exactly the rows, in order |
| Keyset.ListingIsUnique | crates/persistence/src/repository.rs:479-484 | a listing is determined by its rows |
| Keyset.PageOf | crates/persistence/src/repository.rs:44-57 | the page of a fetch: a prefix, with a cursor exactly when a row was fetched beyond it |
| KeysetWalk.PageFacts | crates/persistence/src/repository.rs:486-522 | a page lists the first rows past the cursor, full when there are more, with its last row as cursor |
| KeysetWalk.PastIsTheRest | crates/persistence/src/repository.rs:486-494 | the rows past a row are the rest of the listing |
| KeysetWalk.ReadAll | crates/jobs/src/handlers/maintenance.rs:175-186 | following cursors over a fixed table gives the whole sorted table in the least number of full fetches |
| KeysetWalk.WalkMovesForward | crates/persistence/src/repository.rs:350-374 | over a changing table a walk only moves forward |
| KeysetWalk.WalkMissesNothing | crates/persistence/src/repository.rs:350-374 | a finished walk whose cursor rows survive returns every row present throughout |
| KeysetWalk.DeletedCursorEndsTheWalk | crates/persistence/src/repository.rs:350-374 | with its cursor row deleted the next page is empty and last |
| KeysetWalk.WalkIsExact | crates/persistence/src/repository.rs:350-374 | no row twice; of the rows present throughout, a finished walk misses exactly those beyond a last cursor whose row was deleted |
| KeysetWalk.CutShortIs | crates/persistence/src/repository.rs:350-374 | only the last fetch of a walk can have resumed from a deleted row, and then it is empty |
| KeysetWalk.DeletedCursorHidesRows | crates/persistence/src/repository.rs:350-374 | a walk that misses two rows present throughout |
| Repository.CreatedAtIsNeverOverwritten | crates/persistence/src/repository.rs:277-309 | over every history of upserts and deletes a row keeps the `created_at` of its insert |
| Repository.NewestFirstWalkIsExact | crates/persistence/src/repository.rs:1008-1032 | newest-first walks under any changes between fetches: no row twice, and exactly which rows present throughout are missed |
| Repository.Repositories.Upsert | crates/persistence/src/repository.rs:277-347 | inserts or updates under the natural key and returns the row's id |
| Repository.Repositories.Delete | crates/persistence/src/repository.rs:825-843 | removes the row, not found when there was none |
| Repository.Repositories.List | crates/persistence/src/repository.rs:350-374 | one page, or invalid on a malformed cursor |
| Aggregates.CountsAreCardinalities | crates/persistence/src/repository.rs:496-509 | the counts are cardinalities, missing plus downloaded is all, and DISTINCT is redundant exactly when no chapter of the series has two download rows |
| Aggregates.InnerRowsSets | crates/persistence/src/repository.rs:496-509 | the ids in the joined rows are the series' chapters and the downloaded ones among them |
| Aggregates.MissingCountIs | crates/persistence/src/repository.rs:1056-1062 | the filtered count is the number of chapters without a download |
| LikePattern.EscapesOnce | crates/persistence/src/repository.rs:203-208 | the three replacements escape each special character exactly once |
| LikePattern.SearchFindsTheText | crates/persistence/src/repository.rs:442-448 | a search matches exactly the titles that contain the text, whatever its wildcards and case |
| MangaSummaries.PushFilter | crates/persistence/src/repository.rs:442-456 | a pushed filter narrows by its own comparison and leaves the others reading their values |
| MangaSummaries.BuildFilters | crates/persistence/src/repository.rs:439-462 | the built clause passes exactly the wanted rows |
| MangaSummaries.BuildStatement | crates/persistence/src/repository.rs:439-509 | on every database the statement answers the fetch of the wanted summaries past the cursor |
| MangaSummaries.ListMangaSummaries | crates/persistence/src/repository.rs:429-522 | the page of the wanted summaries, or invalid on a malformed cursor |
| MangaSummaries.ReadLibrary | crates/persistence/src/repository.rs:429-522 | calling the list with each cursor it returned gives the wanted series, each once, ordered by the chosen column and then by id in the chosen direction, with accurate counts |
| Paths.TruncateBytes | crates/packaging/src/paths.rs:114-120 | the longest prefix on a character boundary within the limit |
| Paths.Utf8LengthIs | crates/packaging/src/paths.rs:113-120 | bytes per character |
| Paths.SanitizeComponent | crates/packaging/src/paths.rs:56-111 | the loop computes the specified name |
| Paths.CharBecomes | crates/packaging/src/paths.rs:64-83 | which characters become a dash, which go and which stay |
| Paths.ReservedAreDevices | crates/packaging/src/paths.rs:42-46 | the reserved names, in any case |
| Paths.SanitizedIsSafe | crates/packaging/src/paths.rs:56-111 | refused exactly when every character vanishes; else short, clean, tidy and neither hidden nor a flag |
| Paths.SanitizingAgain | crates/packaging/src/paths.rs:93-111 | sanitizing again changes nothing, if and only if the limit did not fall behind a dash or behind a reserved name |
| Paths.DashAfterCutting | crates/packaging/src/paths.rs:93-111 | a name that sanitizing again changes |
| Paths.ReservedExactlyWhen | crates/packaging/src/paths.rs:93-111 | exactly when a reserved name gets through |
| Paths.ReservedAfterCutting | crates/packaging/src/paths.rs:93-111 | a name that does |
| ChapterPaths.SeriesDirIsSafe | crates/packaging/src/paths.rs:127-136 | a series directory is one visible component whatever the title |
| ChapterPaths.StemIsMarked | crates/packaging/src/paths.rs:143-157 | a chapter's stem is the series name and what the limit leaves of its markers |
| ChapterPaths.StemsOfOneSeries | crates/packaging/src/paths.rs:143-157 | different chapters of a series, unmarked ones included, get one stem exactly when the limit leaves the same of their markers; never when both fit |
| ChapterPaths.ChaptersShareAFile | crates/packaging/src/paths.rs:143-157 | a title under which two chapters get one stem |
| ChapterPaths.TitleFillsTheLimit | crates/packaging/src/paths.rs:143-157 | a title under which all chapters do, and the extension is past the limit |
| ChapterPlacement.DestinationIsPlace | crates/packaging/src/store.rs:85-93 | whatever a source calls its series, the destination is the stem with its extension in the series directory, which is never hidden and so never staging |
| ChapterPlacement.RenamesComeLast | crates/packaging/src/store.rs:106-116 | in every run nothing is renamed into the library before its file was created and flushed and its directory made, in that order |
| ChapterPlacement.RunsKeepInv | crates/packaging/src/store.rs:80-122 | writers own their staging files and everything outside staging is whole, in every run |
| ChapterPlacement.NothingPartialIsVisible | crates/packaging/src/store.rs:80-122 | a file outside staging is always a complete archive placed for that path |
| ChapterPlacement.VisibleChangesAreWhole | crates/packaging/src/store.rs:106-116 | visible files change only by a rename to the reported archive or by a deletion |
| ChapterPlacement.SweepingEmptiesStaging | crates/packaging/src/store.rs:149-161 | after a crash the sweep leaves exactly the library |
| LibraryStore.LibraryStore.WriteAndSync | crates/packaging/src/store.rs:177-183 | writes the bytes, or leaves nothing or a prefix |
| LibraryStore.LibraryStore.WriteChapter | crates/packaging/src/store.rs:80-122 | on success exactly the archive is placed and described; on any failure the library is as it was; which error comes when |
| LibraryStore.LibraryStore.Delete | crates/packaging/src/store.rs:129-137 | removes the file; already gone is no failure |
| LibraryStore.LibraryStore.CleanStaging | crates/packaging/src/store.rs:149-161 | removes and counts what can be removed from staging, and touches nothing else |
| CbzArchive.NamesAscend | crates/packaging/src/cbz.rs:65-98 | for every count and all extensions lexical order is reading order, and no page takes the metadata name |
| CbzArchive.PageNameIs | crates/packaging/src/cbz.rs:65-98 | a page has its own number, in three digits or as many as the count has, and its extension |
| CbzArchive.BytesDecide | crates/packaging/src/cbz.rs:105-143 | a JPEG, PNG, GIF or WebP signature decides the extension whatever the name claims |
| CbzArchive.NameDecides | crates/packaging/src/cbz.rs:105-143 | without one, what follows the last dot of the name decides, in any case, if readers handle it |
| CbzArchive.WriteCbz | crates/packaging/src/cbz.rs:45-93 | metadata first, then the pages; no name is ever refused as a duplicate |
| CbzArchive.ReadersSeeTheWrittenOrder | crates/packaging/src/cbz.rs:65-80 | a reader that sorts by name sees the pages as written, however the archive lists them |
| CbzArchive.SortedByIndex | crates/packaging/src/adapter.rs:91-94 | the sort is a stable permutation by index |
| CbzArchive.PackageChapter | crates/packaging/src/adapter.rs:75-111 | whatever the arrival order, a reader sees the pages by index; no pages is a retryable error |
| ChapterRead.ReadAt | crates/packaging/src/adapter.rs:186-214 | the range clamped to the size at opening, however the reads are cut up or interrupted and whether the file has shrunk or grown since |
| ComicInfo.Escape | crates/packaging/src/comicinfo.rs:47-63 | the loop computes the specified text |
| ComicInfo.DroppedAre | crates/packaging/src/comicinfo.rs:56-58 | the control characters that are dropped |
| ComicInfo.EscapedIsText | crates/packaging/src/comicinfo.rs:47-63 | escaped text holds no markup, and only XML characters unless a non-character was in it |
| ComicInfo.NonCharacterIsPrinted | crates/packaging/src/comicinfo.rs:47-63 | a non-character that is printed |
| ComicInfo.ReadEscaped | crates/packaging/src/comicinfo.rs:47-63 | a reader gets back the text without dropped characters, unchanged exactly when it has no carriage return |
| ComicInfo.ReturnIsReadAsFeed | crates/packaging/src/comicinfo.rs:47-63 | a text that is read back changed |
| ComicInfo.ToXml | crates/packaging/src/comicinfo.rs:78-129 | the document of the fields |
| ComicInfo.ReadBack | crates/packaging/src/comicinfo.rs:65-129 | an independent reader finds exactly the non-empty fields, in order, with their values |
| ComicInfo.DocumentIsLines | crates/packaging/src/comicinfo.rs:78-129 | declaration, root, elements and end of root, each on lines of their own |
| ComicInfoRecord.NamesInOrder | crates/packaging/src/comicinfo.rs:87-124 | the elements in the order of the schema |
| ComicInfoRecord.DirectionIsRead | crates/packaging/src/comicinfo.rs:39-45 | an independent decoder gets the reading direction back |
| ComicInfoRecord.NumbersAreRead | crates/packaging/src/comicinfo.rs:89-122 | numbers, dates, page count and whole volumes come back as numbers; what was not given has no element |
| ComicInfoRecord.TextsAreRead | crates/packaging/src/comicinfo.rs:87-125 | texts come back under the name of their own element |
| ComicInfoRecord.NamesAreRead | crates/packaging/src/comicinfo.rs:117-119 | writers, pencillers and genres come back one by one |
| DatePattern.FirstMatchIsWidest | crates/aidoku-runtime/src/imports/date.rs:18-44 | the first matching row of the table is the widest field |
| DatePattern.PatternToChrono | crates/aidoku-runtime/src/imports/date.rs:51-83 | the compiler renders exactly the items of the pattern, and terminates |
| DatePattern.PushLiteral | crates/aidoku-runtime/src/imports/date.rs:85-93 | appends literals with percent signs doubled |
| DatePattern.DecodeRender | crates/aidoku-runtime/src/imports/date.rs:85-93 | rendered formats are read back as their items |
| DatePattern.AbsentExactlyWhen | crates/aidoku-runtime/src/imports/date.rs:54-81 | no items exactly when quotes are odd or a letter outside quotes is unknown |
| DatePattern.CompilingPreservesMeaning | crates/aidoku-runtime/src/imports/date.rs:51-93 | what chrono reads in the output is what the pattern means |
| DatePattern.HasTimeExactlyWhen | crates/aidoku-runtime/src/imports/date.rs:104-106 | the time test, exactly |
| DatePattern.PercentBeforeQuotedHour | crates/aidoku-runtime/src/imports/date.rs:104-106 | a pattern it mistakes |
| Redaction.RedactValue | crates/api/src/telemetry.rs:225-239 | the traversal computes the redaction |
| Redaction.SensitiveExactlyWhen | crates/api/src/telemetry.rs:88-109 | a key is sensitive exactly when one of the eight names stands anywhere in it, in any case |
| Redaction.SecretsAreMasked | crates/api/src/telemetry.rs:225-239 | under such a key stands the mask, and under every other key the redacted value |
| Redaction.OthersStay | crates/api/src/telemetry.rs:225-239 | leaves stay and arrays are redacted item by item |
| Redaction.NonInterference | crates/api/src/telemetry.rs:225-239 | equal outputs exactly for trees that differ only under sensitive keys |
| Redaction.RedactionIsUnique | crates/api/src/telemetry.rs:225-239 | the redaction is the one masked tree alike the input, so keys and other leaves are kept and redacting twice is redacting once |
| Redaction.LinesDoNotInterfere | crates/api/src/telemetry.rs:203-219 | lines alike but for secrets, or unparseable, cannot be told apart |
| Redaction.LinesAreToldApart | crates/api/src/telemetry.rs:203-219 | with faithful text formats, lines come out the same exactly when they are alike but for secrets or both look dropped |
| Redaction.RedactLineIs | crates/api/src/telemetry.rs:203-219 | a blank line stays blank, an unreadable one is replaced, any other is printed redacted |
| Redaction.UrlsDoNotInterfere | crates/api/src/telemetry.rs:115-127 | equal outputs exactly for URLs that differ only in sensitive parameter values |
| Redaction.SecretParametersAreMasked | crates/api/src/telemetry.rs:115-127 | a parameter that names a secret keeps its key and loses its value |
| Redaction.RedactQueryKeeps | crates/api/src/telemetry.rs:115-127 | the rest of the URL is kept, and redacting again changes nothing |
| RedactingWriter.EmittedConcat | crates/api/src/telemetry.rs:148-156 | only the unfinished fragment matters to what comes next |
| RedactingWriter.RedactingWriter.DrainLines | crates/api/src/telemetry.rs:148-156 | emits each finished line redacted and keeps the fragment; on an error, the lines before it are out, its own line partly, and all later bytes are still pending |
| RedactingWriter.RedactingWriter.Write | crates/api/src/telemetry.rs:160-164 | the output and the fragment after a write, and after one that fails |
| RedactingWriter.RedactingWriter.Flush | crates/api/src/telemetry.rs:166-177 | the fragment goes out as a line, or is lost with the error |
| RedactingWriter.RedactingWriter.Deliver | crates/api/src/telemetry.rs:135-183 | however a stream is cut into writes, its redacted lines come out in order |
| RedactingWriter.OutputIsPerLine | crates/api/src/telemetry.rs:135-183 | one redacted line for each line, an unterminated last one included |
| JobMetrics.PercentileIsLeast | crates/jobs/src/metrics.rs:198-205 | the reported percentile is the least sample with at least that share at or below it |
| JobMetrics.OutcomesAreConserved | crates/jobs/src/metrics.rs:141-190 | every recorded outcome is in exactly one snapshot or the open window |
| JobMetrics.WindowsKeepTheFirstTimings | crates/jobs/src/metrics.rs:153-162 | the window keeps the first timings and is truncated exactly beyond the limit |
| JobMetrics.SnapshotOf | crates/jobs/src/metrics.rs:170-190 | a snapshot's percentiles, maximum and flag in terms of the timings |
| JobMetrics.JobMetrics.Record | crates/jobs/src/metrics.rs:141-148 | counts the outcome in the open window |
| JobMetrics.JobMetrics.RecordTimeToFirstPage | crates/jobs/src/metrics.rs:153-162 | keeps the timing or marks the window |
| JobMetrics.JobMetrics.Take | crates/jobs/src/metrics.rs:170-190 | reports the window and opens an empty one |
| NetworkMask.TopBits | crates/api/src/config.rs:153-154 | masking an octet keeps what dividing keeps |
| NetworkMask.MaskedIsDivision | crates/api/src/config.rs:144-155 | for octets of any equal length and any prefix within them, masked means equal after dividing the host bits away |
| NetworkMask.NumberIs | crates/api/src/config.rs:144-155 | octets as a big-endian number |
| NetworkMask.InNetworkIs | crates/api/src/config.rs:128-142 | containment as arithmetic, families apart |
| NetworkMask.TrustedIs | crates/api/src/client_ip.rs:58-60 | an address is trusted exactly when it agrees with the leading bits of some network of its family |
| ClientIp.ClientIpIs | crates/api/src/client_ip.rs:33-60 | the peer, or the last untrusted hop of a trusted peer's header, for any notion of trust |
| ClientIp.ClientAddressIs | crates/api/src/client_ip.rs:33-60 | with the configured networks, none included: the header counts only from a peer in one of them, and then its last hop outside them all, membership being arithmetic on leading bits |
| ClientIp.SpacesAreTrimmed | crates/api/src/client_ip.rs:47-49 | white space around an entry does not matter |
| ClientIp.PrependedHops | crates/api/src/client_ip.rs:45-56 | what stands in front of a header matters only when the header names no untrusted hop |
| ClientIp.PrependedHopIsBelieved | crates/api/src/client_ip.rs:45-56 | an untrusted hop in front of a header of trusted proxies is the answer |
| ClientIp.AHopIsBelieved | crates/api/src/client_ip.rs:45-56 | such a header |
| SourceSettings.CollectDefaults | crates/aidoku-runtime/src/settings.rs:23-42 | the seeds of all settings, groups opened one level |
| SourceSettings.SeedsAre | crates/aidoku-runtime/src/settings.rs:44-69 | a seed is collected exactly when some setting declares it |
| SourceSettings.SeedOfIs | crates/aidoku-runtime/src/settings.rs:44-69 | which settings seed what, by their type and the shape of their default |
| SourceSettings.SettingsAre | crates/aidoku-runtime/src/settings.rs:23-42 | a group stands for its items, anything else for itself |
| SourceRegistry.SeedingKeeps | crates/aidoku-runtime/src/registry.rs:245-253 | nothing stored changes, every declared key is set, a new one to its first default |
| SourceRegistry.AidokuRegistry.Upsert | crates/persistence/src/repository.rs:1274-1314 | a source already there keeps its id |
| SourceRegistry.AidokuRegistry.SavePackage | crates/packaging/src/packages.rs:62-73 | the package is replaced whole or not at all, and which failure leaves a partial file |
| SourceRegistry.AidokuRegistry.SeedSettings | crates/aidoku-runtime/src/registry.rs:245-253 | the settings after seeding, a failure part way included |
| SourceRegistry.AidokuRegistry.InstallBytes | crates/aidoku-runtime/src/registry.rs:206-269 | every intermediate state is consistent; when it succeeds, all three stores; when it fails, which error and what stays |
| SourceRegistry.AidokuRegistry.Install | crates/aidoku-runtime/src/registry.rs:378-385 | the download limit bounds every saved package, at every intermediate moment; within it, what an install does |
| SourceRegistry.AidokuRegistry.Uninstall | crates/aidoku-runtime/src/registry.rs:387-395 | every intermediate state is consistent, and exactly what a failure leaves behind |
| SourceRegistry.AidokuRegistry.CleanPartials | crates/packaging/src/packages.rs:118-137 | removes and counts the partial writes that can be removed |
| SourceRegistry.AidokuRegistry.LoadInstalled | crates/aidoku-runtime/src/registry.rs:151-198 | exactly the sources whose package loads are loaded, and what the report counts |
| SourceRegistry.ReportAddsUp | crates/aidoku-runtime/src/registry.rs:151-198 | total is loaded plus missing plus failed |
| SourceRegistry.AidokuRegistry.Restart | crates/aidoku-runtime/src/registry.rs:151-198 | a restart loads again everything that was loaded, if and only if each package is readable, within the limit and still compiles |
| SourceRegistry.AidokuRegistry.Live | crates/aidoku-runtime/src/registry.rs:151-395 | any calls, any of which may fail or die after any of its changes, keep the stores consistent and every package within the limit |
| SourceRegistry.AidokuRegistry.RestartAfter | crates/packaging/src/packages.rs:80-99 | after any such history a restart loads again what was loaded exactly when each package is readable and compiles; size is never the reason, and the same runtime loads every package |
| SourceRegistry.OversizedIsNotReloaded | crates/packaging/src/packages.rs:80-99 | a package over the limit of the store installs, is loaded and is not loaded again |

## Left out

- PostgreSQL, transactions and async: every SQL statement is one atomic step, and database `now()` and process time are one monotone clock. A tick's separate reads of the clock are one instant.
- `run_worker`'s idle wait and its time to first page are not part of this model, and a statement that reports an error is taken to have had no effect. Its passes are a finite list, as a proof of termination needs; what others do between its steps is any list of their steps.
- Job handlers, routes, migrations, sessions, OIDC, CSRF, SSE, static files, configuration messages and the web front end: plumbing or shallow branching.
- `emit_metrics_if_due`, `list`, `list_summaries` and the subject lookups of the job queue: easy members.
- Deleting a source repository, whose cascade is in the schema, and the concurrent use of one registry: installs and uninstalls are taken one at a time.
- Chapter lists with NULL numbers, whose row comparison drops rows: a walk over them is not complete.
- Text order is by code point instead of the database collation, and case folding in searches is for ASCII letters.
- Unicode normalization is the identity; f32 numbers are whole numbers or the text the source prints for them, without the saturation of `as i64`.
- zip, SHA-256, postcard, wasmtime, serde_json's text format, chrono's own parsing and address parsing are functions given as parameters.
- Directories, symbolic links and `resolve_within`: a file is a directory name and a file name under the library root. Power loss is not modelled, process crashes are.
- Poisoned locks, and flushing the writer inside `RedactingWriter`, which has no effect here but its errors on writes.
- `redact_value` and the page sort work on values here: their update in place is not captured.
- `Exists` before `enqueue` and the insert itself are one step inside a tick.
