# Verdix in Dafny

Verdix reads Suricata's `eve.json`, stores the events, admits alerts to a triage queue under a daily
cap, lets one worker produce or inherit a verdict for each alert, and shows the result in a queue
page. This project models the parts of it whose correctness depends on whole runs, on string
encodings or on real-valued time, and proves what they promise.

| file | what it models |
|---|---|
| `IsoTime.dfy` | UTC instants and `isoformat()` text |
| `JsonLike.dfy` | `json.dumps`, SQL `LIKE` and the discriminator between produced and inherited verdicts |
| `AlertStore.dfy` | the alert and verdict tables, updates and queries |
| `Triage.dfy` | dispatcher handlers, cap lock and worker as one state machine over interleaved steps |
| `TriageWorker.dfy` | the handler and the worker's loop as call-by-call programs that take steps of that machine |
| `Pipeline.dfy` | tailer queue, broadcaster, batching indexer and dispatcher tasks under any interleaving and any failures |
| `Tailer.dfy` | polling, rotation, partial lines and read errors |
| `CircuitBreaker.dfy`, `RateLimiter.dfy` | the breaker and the token bucket over every history |
| `TtlCache.dfy` | both caches over every history |
| `VtResponse.dfy`, `VirusTotal.dfy` | the parser of VirusTotal responses, and interleaved lookups with the stale fallback on top of the cache |
| `AddressGroups.dfy`, `AddressText.dfy` | expansion of address-group variables against reachability, on lists and on the actual strings |
| `Indicators.dfy` | which names and addresses of a flow are looked up |
| `QueueRows.dfy`, `Lockout.dfy` | grouping of the queue page, login lockout |
| `Optional.dfy`, `Sequences.dfy` | what several modules share |

The pattern is the same throughout. State that the program updates in place is a class whose methods
are proved against specification functions, loops are methods with invariants, and the theorems are
lemmas about every history or every run of those functions. Recurring events (a clock reading, a
failing call, how long a sleep really took, what a live query returned) are parameters.

Where the natural claim is false of the code, the exact condition is proved instead:

- With `VX_DAILY_RESET_HOUR` above zero the cap does not bound a UTC day
  (`Triage.WholeDayBoundExactlyWhen`): before that hour the reset time lies ahead, the count is zero and
  nothing is deferred. The bound does hold from the reset hour to midnight.
- "Every admitted alert is analysed the same day" is false: the count includes rows still queued, so the
  admission that reaches the cap also stops the worker. From an idle worker and a queued alert the day
  can still bring a dequeue exactly when the count is below the cap (`Triage.DequeuesTodayExactlyWhen`),
  and for every positive cap a run ends with alerts waiting behind it (`Triage.AlertsWaitBehindCap`).
- A produced verdict is taken for an inherited one exactly when its prompt ends marked, that is, when
  the prompt is, or ends with a quote followed by, `inherited?from` (`?` one character that JSON does
  not escape, ASCII case ignored) or `inherited`, a form feed and `rom`; the form feed counts because
  it is encoded as `\f` (`JsonLike.ProducedMatches`, `JsonLike.FormFeedPrompt`).
- The breaker's documentation says that HALF_OPEN allows one probe; the code admits every caller until
  one of them completes (`CircuitBreaker.EveryProbeAdmitted`).
- The token bucket can grant twice the rate in a closed period (`RateLimiter.TwiceTheRateInAPeriod`).
- "FAILING only if no well-formed response was fetched within 7 x TTL" is false twice: a malformed
  response replaces a good stale one (`VirusTotal.MalformedHidesGood`), and a lookup that loses its second
  store leaves no stale entry (`VirusTotal.LostStaleStore`). The exact conditions are
  `VirusTotal.FailingExactlyWhen` and, for the two entries to agree, `VirusTotal.EntriesAgreeExactlyWhen`.
- "Never raises" is false: a lookup raises exactly when a cache call fails or the response it parses is no
  object, or has something other than an object at `data.attributes` or at its statistics
  (`VirusTotal.LookupRaisesExactlyWhen`, `VtResponse.ParsesExactly`, `VtResponse.NullStatsRaise`).
- A value ending in `:stale` shares a cache key with another indicator (`VirusTotal.StaleSuffixCollides`).
- The SQLite cache deletes an expired row by key in a second statement; a value set in between is lost,
  and that is the only way an eviction shows (`TtlCache.LateEvictionShowsExactlyWhen`).
- A poll that meets a partial line consumes it (`Tailer.TwoPollsAreOneExactlyWhen`).
- A negated bracket list is cut at its commas: exactly its un-negated elements other than the first and
  the last count as positive (`AddressText.NegatedListExactly`, `AddressText.NegatedListYieldsExactlyWhen`).
- The exclusion of names by server address is per event (`Indicators.ServerExclusionIsPerEvent`).
- A name answered with a private address outside HOME_NET is looked up (`Indicators.PrivateAnswersLeave`).
- After a lock, a rejected check starts a new count exactly when the lock has passed; exactly at
  `locked_until` it locks again at once (`Lockout.CountRestartsExactlyWhen`).

## Model

| member | source | states |
|---|---|---|
| IsoTime.TextOrderIsTimeOrder | src/infra/db/event_store.py:27-28 | for all instants with four-digit years, comparing the `isoformat()` texts is comparing the instants, strictly and weakly, although the fraction is dropped at zero microseconds |
| IsoTime.ParseIsoFormat | src/infra/db/event_store.py:279-281 | parsing the printed text gives back the instant |
| IsoTime.CivilMonotone | src/infra/db/event_store.py:27-28 | later instants have lexicographically later civil date and time fields |
| IsoTime.MicrosOfCivilOf | src/infra/db/event_store.py:27-28 | the calendar conversion is undone by counting days and microseconds |
| IsoTime.ResetTimeReplacesClock | src/infra/db/event_store.py:168-171 | the reset instant is the civil time of now with the hour replaced and minutes, seconds and microseconds zero |
| IsoTime.CivilExactly | src/infra/db/event_store.py:27-28 | every instant is its Gregorian date, by a closed formula, times a day plus its clock in microseconds, hours, minutes, seconds and days of the month within their plain bounds |
| IsoTime.PrintLayout | src/infra/db/event_store.py:27-28 | each field of the text stands at its fixed place with its separators, and the fraction is there exactly when the microseconds are not zero |
| JsonLike.LikeIsContains | src/infra/db/event_store.py:294 | matching the LIKE pattern is having the quoted mark at some position, `_` standing for any character and ASCII case ignored |
| JsonLike.LiteralMatches | src/infra/db/event_store.py:294 | an encoded JSON string contains the mark exactly when the decoded text ends marked, however often the quoted mark occurs elsewhere in it |
| JsonLike.DumpsMatches | src/infra/db/event_store.py:294 | encoded JSON of any shape contains the mark exactly when one of its strings or keys ends marked |
| JsonLike.InheritedAlwaysMatches | src/triage/worker.py:218 | every inherited `llm_inputs` matches, whatever the source id |
| JsonLike.ProducedMatches | src/llm/ollama_client.py:211 | for every prompt, a produced `llm_inputs` matches exactly when the prompt ends marked |
| JsonLike.PromptTakenExactlyWhen | src/infra/db/event_store.py:294 | the same condition spelled out in characters: which prompts make the query take a produced verdict for an inherited one |
| JsonLike.EscapesAre | src/triage/worker.py:273 | the short escapes of section 7 of RFC 8259 and the characters written as they are |
| JsonLike.InheritedText | src/triage/worker.py:218 | the text of an inherited row |
| JsonLike.ProducedText | src/llm/ollama_client.py:211 | the text of a produced row, prompt before schema |
| JsonLike.QuotedInsidePrompt | src/infra/db/event_store.py:294 | the quoted mark inside a prompt does not match, the bare mark as prompt does |
| JsonLike.FormFeedPrompt | src/infra/db/event_store.py:294 | a prompt that nowhere spells the mark matches because of its form feed |
| JsonLike.ShapesDiffer | src/infra/db/event_store.py:262-274 | inherited and produced inputs never have the same text |
| JsonLike.EscapeInjective | src/triage/worker.py:273 | JSON string escaping loses nothing |
| JsonLike.InheritedInjective | src/triage/worker.py:218 | the text of an inherited row determines its source id |
| AlertStore.Store.InsertAlert | src/infra/db/event_store.py:74-101 | appends one row with the given status and stamp, no verdict, and changes nothing else |
| AlertStore.Store.UpdateAlertStatus | src/infra/db/event_store.py:183-190 | changes the status of that row alone |
| AlertStore.Store.RecordVerdict | src/infra/db/operational_store.py:108-114 | adds the row under a new id and changes nothing when the id is taken |
| AlertStore.Store.MarkPreviousVerdictsSuperseded | src/infra/db/operational_store.py:116-122 | clears `is_current` on every verdict of the alert and on no other |
| AlertStore.Store.LinkVerdictToAlert | src/infra/db/operational_store.py:145-151 | sets verdict id and status analyzed on that row alone |
| AlertStore.CountTextIsCount | src/infra/db/event_store.py:172-181 | the SQL count over text is the number of non-deferred rows at or after the instant |
| AlertStore.OldestQueuedByTime | src/infra/db/event_store.py:147-158 | the first queued row in text order is one with the least ingest instant |
| AlertStore.MatchesByTime | src/infra/db/event_store.py:279-293 | the text window of the inheritance query is the hour up to and including the candidate's ingest instant |
| AlertStore.RecentVerdictMeans | src/infra/db/event_store.py:277-299 | column by column and in plain numbers: the query finds a verdict iff an analyzed row of the same signature, source and destination with a stored verdict that does not match the pattern was ingested in the hour up to the candidate, and then that of a youngest one; a NULL column finds nothing |
| AlertStore.BoundIsRedundant | src/infra/db/event_store.py:231-245 | where no analyzed row is younger than the candidate, the query has the same answers with and without its upper bound |
| Triage.InvariantHolds | src/triage/worker.py:112-288 | ordered ingest, FIFO, linking, one-hop provenance and the cap hold in every state of every run |
| Triage.QueueIsFifo | src/triage/worker.py:133-139 | in every run alerts are dequeued in nondecreasing ingest order; while one is processed every analyzed alert is no younger and the upper bound of the inheritance query removes no answer |
| Triage.InheritanceIsOneHop | src/triage/worker.py:189-225 | in every reachable state a verdict is produced or, exclusively, copied from a stored produced verdict of another alert of the same group at most one hour earlier; a source is never itself inherited |
| Triage.SiblingFoundExactlyWhen | src/infra/db/event_store.py:284-298 | in every run, while an alert with a complete group is searched for a sibling, a verdict is found iff an analyzed alert of the group ingested in the hour before has a produced verdict whose prompt is not taken for inheritance, and then that of a youngest one |
| Triage.ProducedCarriesResponse | src/triage/worker.py:263-277 | in every run a produced verdict carries, column by column, an answer the LLM gave under its id |
| Triage.AlwaysInterruptible | src/triage/worker.py:279-286 | cancellation of worker or handler is possible in every state, a failure in every state of processing, and none touches the tables |
| Triage.AnalyzedMeansLinked | src/triage/worker.py:169-288 | whatever fails or is cancelled, an alert has at most one current verdict, is analyzed exactly when `verdict_id` is set, and then that is its current verdict |
| Triage.StatusNeverReturns | src/triage/worker.py:169-288 | over any stretch of any run no status returns to queued, deferred and analyzed never change |
| Triage.DailyCapHolds | src/ingestion/dispatcher.py:81-88 | for every interleaving at most `daily_cap` non-deferred rows lie between the reset hour and midnight of any day, also when the count is read before midnight and the row lands after it; for reset hour 0 that is the whole day |
| Triage.WholeDayBoundExactlyWhen | src/infra/db/event_store.py:162-181 | no run puts more than the cap into any UTC day if and only if the reset hour is 0 or the cap is not positive |
| Triage.NothingDeferredBeforeReset | src/infra/db/event_store.py:167-180 | before the reset hour every positive cap admits |
| Triage.CapStopsWorker | src/triage/worker.py:135-137 | once the count has reached the cap with the worker idle, it stays idle, nothing is dequeued and no row changes for the rest of the UTC day |
| Triage.AlertsWaitBehindCap | src/triage/worker.py:135-137 | for every positive cap and every reset hour some run ends with the cap reached, the worker idle and an alert queued |
| Triage.DequeuesTodayExactlyWhen | src/triage/worker.py:133-139 | from any reachable state with an idle worker and a queued alert, some continuation within the same UTC day dequeues if and only if the count is below the cap |
| Triage.CountTodayIsWindow | src/infra/db/event_store.py:162-181 | the count compared with the cap is the number of non-deferred rows in the day's window |
| TriageWorker.QueryOldestQueued | src/infra/db/event_store.py:133-160 | returns a queued row that is first in text order, and nothing only when none is queued |
| TriageWorker.FindRecentVerdict | src/infra/db/event_store.py:277-299 | returns a verdict iff a fit row exists, that of a youngest one, and None when a group column is NULL |
| TriageWorker.System.Handle | src/ingestion/dispatcher.py:81-95 | takes steps of the machine; the row is inserted with the status the count gives at the counting time and the stamp of the insert, or nothing changes when either call fails |
| TriageWorker.System.DequeueNext | src/triage/worker.py:133-139 | gives nothing exactly when the cap is reached or nothing is queued, and otherwise the oldest queued alert |
| TriageWorker.System.GiveUp | src/triage/worker.py:281-286 | marks the alert failed, or changes nothing when that call fails too |
| TriageWorker.System.Persist | src/triage/worker.py:199-225 | when all three calls go through the alert is analyzed and linked, the new row is stored, the alert's older verdicts are current no more and no other verdict changes; otherwise the alert rows are as before but for the status failed, set exactly when that call goes through |
| TriageWorker.System.ProcessAlert | src/triage/worker.py:145-288 | with any pattern of failing calls it takes steps of the machine and ends idle; every other alert row is unchanged, the alert's own is analyzed and linked when every call goes through, otherwise failed if that could be stored and else as the first call left it; the new verdict belongs to the alert, is current and has, column by column, the values of the verdict found or else of the LLM's answer, and every other verdict is unchanged up to `is_current` of this alert |
| TriageWorker.System.Turn | src/triage/worker.py:112-123 | a turn of the loop extends the machine's run; it takes an alert exactly when the count is below the cap and one is queued, then changes the row of the oldest queued alert and no other, and otherwise leaves the store unchanged |
| Pipeline.NoEventLost | src/ingestion/indexer.py:52-86 | at every moment of every run stored rows, batch, indexer queue, event in flight and tailer queue together are the emitted sequence; the batch exceeds its size by at most the flushes failed in a row |
| Pipeline.EverythingCanFinish | src/ingestion/pipeline.py:37-47 | from every state of every run there are steps without a new event or failure after which every emitted event is stored in order and every alert inserted but for those lost before |
| Pipeline.AnythingMayFail | src/ingestion/indexer.py:78-86 | a flush, a count and an insert may fail whenever they are made |
| Pipeline.EveryAlertAccounted | src/ingestion/dispatcher.py:63-95 | at every moment inserted alerts, failed inserts, failed counts, handlers and everything upstream are, as a multiset, the emitted alerts |
| Pipeline.ShutdownKeepsPrefix | src/ingestion/indexer.py:72-76 | after the flush on cancellation, successful or not, the stored rows are a prefix of what was emitted |
| Pipeline.Broadcast | src/ingestion/pipeline.py:37-47 | every event goes to the indexer in order and exactly the alerts, in order, to the dispatcher |
| Pipeline.EveIndexer.Run | src/ingestion/indexer.py:52-76 | for every sequence of arrivals, timeouts and flush outcomes the rows and what is lost at the end are what arrived, in order; what is lost is what the loop held, none of it older than the last timeout or full batch whose flush succeeded, and fewer than a full batch plus the turns that failed since; nothing when the last flush succeeds |
| Pipeline.EveIndexer.Take | src/ingestion/indexer.py:58-71 | one turn: the event is held or stored, and the batch is empty afterwards exactly when a full batch or a timeout was flushed with success or there was nothing |
| Pipeline.HeldBounded | src/ingestion/indexer.py:58-71 | the batch is held below its size but for the turns that failed since |
| Pipeline.EveIndexer.Flush | src/ingestion/indexer.py:78-86 | appends the whole batch or nothing and says which |
| Tailer.TwoPollsAreOneExactlyWhen | src/ingestion/tailer.py:98-122 | text read in two polls gives the lines of one poll if and only if the cut is at a line end; otherwise exactly one line counts twice |
| Tailer.EveryLineOnce | src/ingestion/tailer.py:71-122 | in every run of whole-line writes, visible rotations and polls, the events of complete reads followed by those of unread lines are the events of all lines written since the start |
| Tailer.RepeatsOnlyFromFailedReads | src/ingestion/tailer.py:108-121 | what a failed read put on the queue is a prefix of the events that stay unread and come again |
| Tailer.WorldExactly | src/ingestion/tailer.py:71-96 | what is asked of writer, rotations and polls, and nothing else |
| Tailer.EveTailer.constructor | src/ingestion/tailer.py:58-60 | starts at the end of the file |
| Tailer.EveTailer.Poll | src/ingestion/tailer.py:71-96 | cursor and queue change as the rotation test and the read say; a missing or unreadable file changes nothing |
| Tailer.EveTailer.ReadNewLines | src/ingestion/tailer.py:98-122 | queues the events of the lines read before the error, if any, and moves the position only when the read was complete |
| CircuitBreaker.RefusedExactlyWhen | src/infra/circuit_breaker.py:75-80 | for every interleaving a call is refused if and only if the last `fail_max` completions all failed and the latest came less than `reset_timeout` ago |
| CircuitBreaker.NotClosedMeansFailing | src/infra/circuit_breaker.py:91-99 | the state is not CLOSED iff `failures >= fail_max` iff the last `fail_max` completions failed |
| CircuitBreaker.StateExplained | src/infra/circuit_breaker.py:59-99 | the failure counter is the length of the final run of failures, and state and opening time follow from the history |
| CircuitBreaker.HalfOpenDisjunctRedundant | src/infra/circuit_breaker.py:95-99 | in every reachable state the HALF_OPEN test in the failure handler changes nothing |
| CircuitBreaker.EveryProbeAdmitted | src/infra/circuit_breaker.py:75-82 | after the timeout any number of callers is admitted until one completes |
| CircuitBreaker.AsyncCircuitBreaker.Admit | src/infra/circuit_breaker.py:75-80 | admits exactly when the history does not refuse |
| CircuitBreaker.AsyncCircuitBreaker.RecordSuccess | src/infra/circuit_breaker.py:91-93 | closes the breaker and adds the completion to the history |
| CircuitBreaker.AsyncCircuitBreaker.RecordFailure | src/infra/circuit_breaker.py:95-99 | is not closed afterwards exactly when the last `fail_max` completions failed |
| RateLimiter.GrantsBounded | src/enrichment/virustotal/rate_limiter.py:31-51 | in every run the grants from one pass to another number at most rate + (rate/period) times the time between; at most twice the rate in a closed period and fewer in less |
| RateLimiter.TokensWithin | src/enrichment/virustotal/rate_limiter.py:38-42 | tokens stay between zero and the rate |
| RateLimiter.TwiceTheRateInAPeriod | src/enrichment/virustotal/rate_limiter.py:31-51 | for every rate and period a run grants twice the rate within one closed period |
| RateLimiter.Limiter.Acquire | src/enrichment/virustotal/rate_limiter.py:31-51 | with sleeps at least as long as asked, one pass is enough when a token is there and otherwise exactly two; only the last pass grants |
| RateLimiter.Limiter.Pass | src/enrichment/virustotal/rate_limiter.py:35-46 | one turn of the loop takes a step of the bucket and grants exactly when the refilled bucket holds a token |
| TtlCache.LiveMeans | src/infra/cache/memory.py:23-37 | the reference value of a key is that of the last write to it, when that was a set whose time to live has not passed |
| TtlCache.LookIsLive | src/infra/cache/memory.py:23-37 | after every history a lookup gives the reference value, whatever has been evicted |
| TtlCache.EvictionNeverShows | src/infra/cache/memory.py:23-31 | reads, lazy eviction and `clear_expired`, taken as single steps, never change any later value |
| TtlCache.LateEvictionShowsExactlyWhen | src/infra/cache/sqlite.py:58-78 | where other tasks come between reading an expired row and deleting it, the deletion takes a value away iff one of them set the same key and that set is the last write and alive; other keys are never affected |
| TtlCache.RowsHeld | src/infra/cache/sqlite.py:58-110 | exactly which rows the table holds after a history |
| TtlCache.CachesAgree | src/infra/cache/sqlite.py:58-110 | two caches that saw the same writes answer alike, whatever was read or cleared, for values JSON gives back unchanged |
| TtlCache.InMemoryTTLCache.Get | src/infra/cache/memory.py:23-31 | returns the reference value of the history |
| TtlCache.InMemoryTTLCache.Set | src/infra/cache/memory.py:33-34 | the table stays that of the history with the set added |
| TtlCache.InMemoryTTLCache.Delete | src/infra/cache/memory.py:36-37 | the table stays that of the history with the deletion added |
| TtlCache.SQLiteCache.Get | src/infra/cache/sqlite.py:58-78 | returns the decoded reference value of the history |
| TtlCache.SQLiteCache.Set | src/infra/cache/sqlite.py:80-94 | the rows stay those of the history with the set added |
| TtlCache.SQLiteCache.Delete | src/infra/cache/sqlite.py:96-101 | the rows stay those of the history with the deletion added |
| TtlCache.SQLiteCache.ClearExpired | src/infra/cache/sqlite.py:103-110 | removes exactly the expired rows and returns their number |
| VtResponse.ParsesExactly | src/enrichment/virustotal/client.py:206-260 | for every JSON value: it raises iff it is no object, or marks no 404 and has something other than an object at `data.attributes` or `last_analysis_stats`; it is malformed iff it is an object, marks no 404 and has nothing at `data.attributes` or statistics that are not all numbers; otherwise it contributes |
| VtResponse.ReportCounts | src/enrichment/virustotal/client.py:226-243 | counts are read from the statistics and default to zero, flagged is their sum, the total is the sum over all keys of the statistics, reputation is read beside them, and without negative counts flagged is at most total |
| VtResponse.SumIsOverKeys | src/enrichment/virustotal/client.py:231 | the sum adds the value of every key once, in whatever order the keys are listed |
| VtResponse.EntryIsLast | src/enrichment/virustotal/client.py:226-232 | of equal keys the last one counts |
| VtResponse.ValuesCount | src/enrichment/virustotal/client.py:213-231 | which values are false and which numbers booleans count for |
| VtResponse.SentinelContributes | src/enrichment/virustotal/client.py:157-181 | the mark the client stores for a 404 contributes an empty report |
| VtResponse.NullStatsRaise | src/enrichment/virustotal/client.py:226-230 | null statistics and a top-level list raise, attributes without statistics contribute |
| VirusTotal.AnswersAreExpected | src/enrichment/virustotal/client.py:107-151 | in every run of interleaved lookups whose cache calls may fail, each answer is the one that the latest response stored under the key it reads gives |
| VirusTotal.CacheMirrorsStores | src/enrichment/virustotal/client.py:145-149 | the primary entry holds the latest response stored as primary for TTL, the stale entry the latest one stored as stale for 7 x TTL |
| VirusTotal.EntriesAgreeExactlyWhen | src/enrichment/virustotal/client.py:145-149 | both entries come from one fetch iff the last lookup that stored its response as primary also stored it as stale and none did so later; then they hold the same record |
| VirusTotal.LostStaleStore | src/enrichment/virustotal/client.py:147-149 | when the second store fails or is never made, a failed query after TTL is FAILING although a well-formed response is less than 7 x TTL old |
| VirusTotal.ContributedWasStored | src/enrichment/virustotal/client.py:110-116 | a cached CONTRIBUTED answer is the report of a response stored for the same indicator at most TTL ago as primary and 7 x TTL ago as stale entry, with its age since the fetch |
| VirusTotal.FailingExactlyWhen | src/enrichment/virustotal/client.py:186-194 | a failed query ends in FAILING iff the fallback read goes through and the latest response stored as stale is missing, older than 7 x TTL or malformed |
| VirusTotal.RaisesExactlyWhen | src/enrichment/virustotal/client.py:99-151 | a step of a lookup raises iff its cache call fails or the response it parses is unreadable |
| VirusTotal.LookupRaisesExactlyWhen | src/enrichment/virustotal/client.py:99-151 | a whole lookup raises iff a cache call it comes to fails, or the primary, stale or fetched response it ends up parsing is unreadable |
| VirusTotal.MalformedHidesGood | src/enrichment/virustotal/client.py:145-149 | with all stores going through, a malformed response makes a later failed query FAILING although a well-formed one is less than 7 x TTL old |
| VirusTotal.StaleSuffixCollides | src/enrichment/virustotal/client.py:149 | a lookup of `x:stale` is answered with what was fetched for `x` |
| VirusTotal.KeysApart | src/enrichment/virustotal/client.py:107 | without that suffix no two entries share a key |
| VirusTotal.KeyTexts | src/enrichment/virustotal/client.py:107 | the texts of both keys of an indicator |
| VirusTotal.PlainExactly | src/enrichment/virustotal/client.py:107 | the indicators covered: addresses and domains whose value does not end in `:stale` |
| VirusTotal.VirusTotalClient.ReadEntry | src/enrichment/virustotal/client.py:109-116 | the answer and the cache after the check or the fallback, a failing read included |
| VirusTotal.VirusTotalClient.StoreEntry | src/enrichment/virustotal/client.py:145-151 | the answer and the cache after either store, a failing one included |
| VirusTotal.VirusTotalClient.QueryLive | src/enrichment/virustotal/client.py:118-151 | the result for each outcome of the live query |
| VirusTotal.VirusTotalClient.Lookup | src/enrichment/virustotal/client.py:99-151 | NOT_CONFIGURED exactly without key or for unsupported kinds; otherwise the result that the log of stores gives |
| AddressGroups.ResolvedGroups | src/infra/suricata_config/parser.py:117-142 | for all definitions, cyclic or not, in any order: every literal present is reachable, every literal behind fewer than 1024 references is present, and a known variable is left only behind a chain of at least 1024 |
| AddressGroups.ResolvedIsReachable | src/infra/suricata_config/parser.py:117-142 | with at most 1024 groups the literals present are exactly the reachable ones |
| AddressGroups.LeftoverMeansCycle | src/infra/suricata_config/parser.py:117-142 | with at most 1024 groups a known variable is left over iff the group's references run into a cycle |
| AddressGroups.ChainOf1024IsTooLong | src/infra/suricata_config/parser.py:132-140 | the bound is tight: a front-to-back chain of 1024 references is not resolved |
| AddressGroups.PassDoubles | src/infra/suricata_config/parser.py:132-140 | one in-place pass at least doubles how far each group has been expanded |
| AddressText.ValueExpands | src/infra/suricata_config/parser.py:145-166 | expanding a flat string gives a flat string whose positive entries are the expanded entries, brackets, spaces, negation and unknown variables included |
| AddressText.ReferenceExpands | src/infra/suricata_config/parser.py:153-166 | for every nonempty name of capital letters, digits and underscores and every value of its group, `$NAME` becomes the value without brackets and `!$NAME` its elements negated one by one |
| AddressText.FlatExactlyWhen | src/infra/suricata_config/parser.py:145-166 | the values covered, spelled out: no inner brackets, and elements that have no `$` or are such a reference behind any number of `!` |
| AddressText.ItemsOfList | src/infra/suricata_config/parser.py:157-162 | joining elements, with or without brackets and white space around, and splitting again gives the elements back |
| AddressText.TextPassesSimulate | src/infra/suricata_config/parser.py:117-142 | the strings go through the same passes as the lists of entries |
| AddressText.ResolveVariableReferences | src/infra/suricata_config/parser.py:117-142 | the nested loops with early exit compute the ten passes |
| AddressText.ResolvePass | src/infra/suricata_config/parser.py:132-140 | one turn of the outer loop computes one pass, and no reported change means none |
| AddressText.ParseAddressValue | src/infra/suricata_config/parser.py:169-206 | the networks are those of the positive literals, in order |
| AddressText.NetworksAreReachable | src/infra/suricata_config/parser.py:105-114 | every network parsed for a group comes from a literal reachable through un-negated references, and with at most 1024 groups, or within 1023 references, every such literal's network is there |
| AddressText.NegatedListExactly | src/infra/suricata_config/parser.py:184-197 | the positive entries of a negated bracket list are those of its elements other than the first and the last, and the last one with its bracket; a list of one has none |
| AddressText.NegatedListYieldsExactlyWhen | src/infra/suricata_config/parser.py:184-204 | with a parser that rejects `]`, such a list yields a network iff an un-negated element strictly inside it parses to it |
| Indicators.DnsAnswerIps | src/triage/worker.py:406-449 | the map holds exactly the addresses that some dns event answers for a name, asked or answered, CNAME chains included |
| Indicators.ExtractIndicators | src/triage/worker.py:465-542 | the domains are the first three distinct eligible names; the addresses the first two distinct ones of the alert and of bare-address names up to the third domain |
| Indicators.HomeNetNames | src/triage/worker.py:478-484 | exactly the names with a HOME_NET answer in the flow |
| Indicators.AskedNamesStayHome | src/triage/worker.py:431-448 | whatever name a dns event asks for, first or in its queries: with any HOME_NET address in the event, no spelling of that name is returned |
| Indicators.EligibleExactly | src/triage/worker.py:497-537 | which dns, http and tls events make which name eligible, test by test |
| Indicators.InternalExactly | src/triage/worker.py:397-403 | the internal names, spelled out |
| Indicators.NormalExactly | src/triage/worker.py:429 | names are compared in lower case without final dots, and nothing else is changed |
| Indicators.AsksExactly | src/triage/worker.py:329-348 | which sources are asked about which indicator |
| Indicators.DomainsAreExternal | src/triage/worker.py:472-476 | lists are short and distinct; no returned name is an address, under an internal suffix or has a HOME_NET answer in any dns event of the flow |
| Indicators.DomainFoundExactlyWhen | src/triage/worker.py:472-476 | with fewer than three domains returned, a name is returned iff some event makes it eligible |
| Indicators.NothingInternalToVirusTotal | src/triage/worker.py:329-348 | no private, reserved or HOME_NET address, no name under an internal suffix and no name with a HOME_NET answer in the flow is looked up in VirusTotal |
| Indicators.PrivateAnswersLeave | src/triage/worker.py:527-536 | a name answered with a private address outside HOME_NET is returned |
| Indicators.ServerExclusionIsPerEvent | src/triage/worker.py:531-536 | a name excluded by one event's server address is returned when another event names it |
| QueueRows.BuildQueueRows | src/web/routes/queue_routes.py:145-259 | the rows partition the alerts by group and hour, their counts sum to the number of alerts, and they are sorted newest first |
| QueueRows.InOneRow | src/web/routes/queue_routes.py:177-197 | each alert is in exactly one row |
| QueueRows.CountsAddUp | src/web/routes/queue_routes.py:234-236 | for every partition into rows the counts sum to the number of alerts |
| QueueRows.RowCategory | src/web/routes/queue_routes.py:204-226 | a row is mixed iff two members' known categories differ; a shown category is that of every member with a known one |
| QueueRows.RowShows | src/web/routes/queue_routes.py:218-245 | where any member has a verdict the row links to a newest such member and, unmixed, shows its stored category and confidence however many newer members wait; without any it shows none |
| QueueRows.RowStatus | src/web/routes/queue_routes.py:229-232 | analyzed before analyzing before queued before failed before deferred |
| QueueRows.SameRowExactlyWhen | src/web/routes/queue_routes.py:179-197 | two alerts share a row iff signature, source and destination agree and both were ingested in the same hour |
| QueueRows.LabelsAre | src/web/routes/queue_routes.py:138-142 | the three labels, other categories as they are |
| QueueRows.KnownCounts | src/web/routes/queue_routes.py:205-208 | a breakdown's numbers count the members of each category |
| QueueRows.FirstIsFirst | src/web/routes/queue_routes.py:201 | of equal members the first is taken |
| QueueRows.SortIsStable | src/web/routes/queue_routes.py:258 | rows that compare equal keep their order |
| QueueRows.BreakdownAddsUp | src/web/routes/queue_routes.py:213-221 | a mixed row's breakdown lists each known category once with its count, most frequent first, and sums to the members with a known category |
| QueueRows.RowMembers | src/web/routes/queue_routes.py:199-232 | count, newest ingest time, best status and the linked member, which has a verdict if any has |
| Lockout.RejectionsBounded | src/web/auth.py:51-77 | between successful logins of a client a window shorter than 60 s holds at most five rejected checks and one of length T at most 5(floor(T/60)+1) |
| Lockout.CountRestartsExactlyWhen | src/web/auth.py:62-73 | a rejected check of a client whose lock was set starts a new count iff the lock has passed by the second clock reading, and otherwise counts on and locks again at once |
| Lockout.InvariantHolds | src/web/auth.py:51-77 | in every run of attempts from all clients the entry of a client follows from its rejections |
| Lockout.LoginGuard.CheckLockout | src/web/auth.py:51-59 | reports the end of a lock exactly while it lasts |
| Lockout.LoginGuard.RecordFailure | src/web/auth.py:62-73 | the new entry of the client, the count and the lock it returns, no other entry changed |
| Lockout.LoginGuard.PostLogin | src/web/routes/auth_routes.py:34-67 | welcomes exactly a correct password of a client that is not locked, refuses exactly a locked client and the failure that locks; a rejected one extends the client's rejections, a locked attempt leaves them as they are, and no other client's entry changes |

## Left out

Assumptions that run through the model:

- Clocks never go back and time and tokens are real numbers; floating-point rounding is not modelled.
- A store call takes effect wholly or not at all, and steps between two awaits are atomic; races inside asyncio (`wait_for`, cancellation inside a commit) are not modelled.
- There is one triage worker, alert and verdict ids are unique, and the clock is at least an hour past the first representable instant.
- Strings are sequences of Unicode characters, with ASCII rules for case and white space; lone surrogates, Unicode case folding and Unicode white space are not modelled.

Weaker or narrower than the source:

- Tailer.EveryLineOnce: files are ASCII with `\n` line ends, and each line that parses is a JSON object; a line holding another JSON value ends the tailer's task in the source.
- Tailer.EveTailer.Poll: `IngestionStatus` bookkeeping is not part of this model.
- TtlCache.SQLiteCache.Set: a value that JSON cannot encode raises in the source and is not modelled.
- TtlCache.SQLiteCache.Get: reading and evicting are one step here; what can come between them is TtlCache.LateEvictionShowsExactlyWhen.
- TtlCache.EvictionNeverShows: as for the get of the SQLite cache, evictions are single steps.
- VirusTotal.VirusTotalClient.Lookup: the breaker and the rate limiter appear as outcomes of the live query, and a read of the cache uses one clock reading for expiry and age.
- VtResponse.ParsesExactly: numbers are real numbers; NaN and infinities, which Python's decoder accepts, are not modelled.
- VirusTotal.AnswersAreExpected: values ending in `:stale` are excluded, because their keys collide.
- AddressText.ValueExpands: only flat lists with per-element negation; negated bracket lists behave as AddressText.NegatedListExactly says, and nested ones are not modelled.
- AddressText.ParseAddressValue: the network parser is a parameter that rejects every spelling of `any`.
- Indicators.ExtractIndicators: events are decoded records; a field of an unexpected JSON type raises in the source.
- QueueRows.BuildQueueRows: ingest times are instants, since every row of the table has one; the fallback for missing or unreadable timestamps and the columns copied from the newest member are not modelled.
- TriageWorker.System.ProcessAlert: one alert without other tasks in between, and the update of role columns counts as part of starting; interleavings are those of the Triage machine.
- Triage.InvariantHolds: copied columns that are never compared (model version, evidence chain, raw output) are one field.

Not modelled:

- HTTP clients, the LLM clients and their retries, GeoIP, RDAP and DNS lookups: each is an outcome that may be anything.
- Web routes other than the login and the queue rows, middleware, templates, health checks, telemetry and logging.
- Role assignment, prompt building, category tables and evaluation scoring: what the columns, prompts and scores they produce contain is not modelled.
- Time filters and retention on `eve_events`: they compare Suricata's own timestamp format with `isoformat()` text, to which the ordering theorem does not apply.
- YAML loading, file includes, rule-file summaries and migrations.
