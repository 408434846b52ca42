# oida, verified

A Dafny model of oida's in-process tracer and proofs about it. oida records
requests and background work as traces of spans, recycles the memory they were
recorded in, keeps the finished ones in a ring and on disk, and shows them on a
live page. The model covers the parts where goroutines interleave or where an
algorithm has a specification that differs from its code.

Times are unbounded integers in nanoseconds. A clock, the random source, the
scheduler, the collector and a context's cancellation are parameters or
nondeterministic steps. Code that changes objects step by step is modelled by
classes and loops, proved against functions on values; goroutines are modelled
by state machines whose steps are critical sections or, where the code holds no
lock, single atomic operations.

| file | what it models |
|---|---|
| `Clock.dfy` | the recorded clock: a compare-and-swap loop and every interleaving of it |
| `Recording.dfy`, `Recorder.dfy` | the critical sections of a trace and its spans, as values and as objects |
| `RecorderRuns.dfy` | goroutines recording into one trace, with `End` and `Finish` in two phases |
| `LockedSections.dfy`, `SectionsAreLocal.dfy`, `SectionRelation.dfy`, `SectionEffects.dfy`, `SectionRefinement.dfy`, `LogScan.dfy` | the same with the trace lock, the span locks and the retry loop, and its refinement to whole sections |
| `Finishing.dfy`, `DebugFilter.dfy`, `RecordedCalls.dfy`, `RecordedTime.dfy`, `RecordedMoments.dfy`, `SpanTrees.dfy`, `StateForms.dfy` | what those runs guarantee: ended spans, which debug spans go, what each call leaves, time per state, moments that never tie, parent links, the two forms of state times |
| `TraceBox.dfy` | the pooled allocation of a trace and its partial reset |
| `Registry.dfy`, `Recycling.dfy`, `ActiveReads.dfy`, `BoxLifecycle.dfy` | the pool, releases, finalizers, the active map and its readers |
| `Tracer.dfy`, `StateTime.dfy`, `Conservation.dfy`, `Totals.dfy` | the tracer's counters and ledger, and state time over all interleavings |
| `LiveView.dfy`, `LiveUpdates.dfy` | the broker's notifications from tracer to stream, and what a stream shows |
| `Copies.dfy`, `Ring.dfy`, `MemoryStorage.dfy` | inert copies, the ring that rewrites them in place, and the storage over it |
| `Documents.dfy`, `FolderPrune.dfy`, `Restarts.dfy`, `DiskStorage.dfy`, `RestartedList.dfy` | the folder of documents, its pruning, restoring from it, and the storage over it |
| `Pruning.dfy`, `PrunedFolder.dfy`, `TopNames.dfy` | the folder under concurrent savers that prune without a lock |
| `Ulid.dfy`, `Order.dfy` | identifiers and the order of strings |
| `Timeline.dfy`, `KindShares.dfy`, `Rows.dfy`, `RowOrder.dfy` | the sweep, its legend, and flattening the span tree |
| `Statistics.dfy`, `HostStatistics.dfy`, `RouteGroups.dfy`, `HostAgreement.dfy`, `Ranking.dfy` | the two aggregations of the window, what they tell of the requests, their sorting, and when they agree |
| `MergeRows.dfy` | the live page's keyed merge of row elements |
| `Lists.dfy`, `Arithmetic.dfy`, `Options.dfy`, `Requests.dfy` | shared helpers |

## Findings

- Groups of the window are keyed by host, a NUL and name. Their statistics are
  independent of the window's order exactly when no two different groups write
  one key text; hosts without a NUL are enough, and `Statistics.NulClashes`
  gives two traces that clash. On the same condition, and no weaker one, the
  group list and the host list agree for every order and host
  (`HostAgreement.AgreementIffNoClash`).
- `ValidID` accepts identifiers `NewID` cannot write: 26 digits hold 130 bits.
  A valid identifier is one of `NewID`'s exactly when its first digit is at most
  seven. Identifiers sort by time modulo 2^48 milliseconds.
- A span whose context carries a span of another trace with the same identifier
  takes that span's number for its parent and can become its own parent
  (`SpanTrees.SharedIdBreaksTree`). A start keeps the tree exactly when it is
  refused, its parent is not such a span, or that span's number and depth are
  those of a span of this trace; over a run the spans form a forest exactly when
  every start met this (`SpanTrees.SpansFormForestIff`).
- A state change after `Finish` adds to the state times but not to the duration,
  so the two agree for a finished trace exactly when its last change was the
  close (`RecordedTime.LateIffMoved` says which runs those are). The ledger and
  a snapshot then exceed the durations and elapsed times, and equal them exactly
  when no trace was captured or counted after such a change. `Durations` and
  `StateTimes` differ for a running trace in a state outside the table; their
  totals never differ.
- The live page's merge yields exactly the incoming rows if and only if every
  row on the page was keyed and no two shared a key. A row marked new by one
  merge is replaced by the next even if nothing else changed: merging one list
  twice replaces exactly the rows whose key the page did not have
  (`MergeRows.MergeTwice`).
- A trace restored from disk reads as one still running: `finished` and `ended`
  are not encoded, so its spans show the time since they started. Its copies
  keep the saved span durations at every reading exactly when it has no span,
  and its own duration exactly when that is not zero
  (`Documents.RestoredReadsAsRunning`).
- A trace's sections interleave: a log line's span was the innermost open one at
  some moment under the trace lock, but an end of it, which takes the span's
  lock alone, may be recorded before the line is dated. With locks and the retry
  loop modelled, every run is still one of whole sections
  (`SectionRefinement.LockedRunsAreRuns`).
- An average duration never exceeds its maximum for durations of any sign,
  because the maximum starts from zero.
- `Reset` of the tracer sends no notification, so a live page shows the old log
  and state times until a trace starts or completes: every Reset behind a
  waiting stream leaves it waiting on an old page (`LiveUpdates.ResetIsNotShown`),
  and `LiveUpdates.ResetLosesUpdate` exhibits such a run.
  Once nothing is owed, a waiting stream shows the current log exactly when no
  Reset emptied it after the stream read it, and so for the active half
  (`LiveUpdates.NoLostUpdate`).
- A save whose prune fails, or whose context is cancelled after the write,
  returns an error with the document written; the ring is untouched, and the
  next prune removes what the failed one left (`FolderPrune.NextPruneCatchesUp`,
  and with concurrent savers `PrunedFolder.FolderIsTopAtRest`).

## Model

| member | source | states |
|---|---|---|
| Clock.Cell.Time | model/clock.go:19-34 | The retry loop returns under any interference, and returns what one uninterrupted call at its place in the recording order would have returned. |
| Clock.RetryLoopIsAtomic | model/clock.go:19-34 | Every step of every interleaving of the retry loops is invisible or is one uninterrupted recorded reading of the goroutine taking it. |
| Clock.FailedSwapMeansProgress | model/clock.go:25-33 | A swap that fails was overtaken: another goroutine recorded a reading since the load. |
| Clock.ReadingsNeverTie | model/clock.go:8-34 | Every reading recorded in any run lies past the start, is never below the caller's own raw reading, and is smaller than every reading recorded after it. |
| Clock.LinearIncreases | model/clock.go:14-18 | Readings recorded one after the other strictly increase. |
| Clock.Cell.Observe | model/clock.go:40-49 | An observation never runs behind the last recorded reading and records nothing. |
| Recorder.Trace.constructor | model/trace.go:87-112 | A new trace has no spans, logs or time in any state, and its last change, update and reading are its start. |
| Recorder.Trace.AppendSpan | model/trace.go:128-167 | Starting a span is the value function: refused once finished, counted when the list is full, else numbered, dated, linked to a parent of this trace id and listed last; other spans are untouched. |
| Recorder.Trace.SetState | model/trace.go:196-210 | A state change charges the time since the last one to the state left; the error state is only left for itself. |
| Recorder.Trace.RecordError | model/trace.go:215-228 | An error moves the trace to the error state at a recorded reading, whatever its state. |
| Recorder.Trace.SetDebug | model/debug_span.go:28-35 | Marking a span changes that span's mark and nothing else. |
| Recorder.Trace.SetHttpInfo | model/trace.go:282-295 | The request's facts replace the HTTP record and nothing else changes. |
| Recorder.Trace.SetResponse | model/trace.go:298-313 | The response is filled into the HTTP record, made if there is none, the route only if it is known, and the update is dated with a recorded reading. |
| Recorder.Trace.FilterDebugSpan | model/debug_span.go:44-64 | A listed span that ran for less than a positive minimum leaves the list of a running trace by its last occurrence and is counted; otherwise nothing changes. |
| Recorder.Trace.End | model/span.go:53-76 | Ending a span is mark then filter, and nothing the second time. |
| Recorder.Trace.Finish | model/trace.go:529-554 | Finishing closes the trace and then ends every listed span from the last to the first; on a finished trace it does nothing. |
| Recorder.Trace.AppendLog | model/log.go:14-44 | A log line is refused once finished, counted over the limit, else dated and given to the named span or the innermost open one. |
| Recorder.Trace.OpenSpan | model/log.go:48-55 | The scan from the end returns the listed span the value function names. |
| Recorder.Trace.StateTimes | model/trace.go:515-526 | The array of state times with the running state's time added. |
| Recorder.Trace.Durations | model/trace.go:495-511 | The map of the state times that are not zero, with the running state's time added. |
| SectionsAreLocal.TraceSectionIsLocal | model/trace.go:128-313 | A section under the trace lock neither reads nor writes what a span's lock guards, but for the blank mark of a span it adds. |
| SectionsAreLocal.SpanSectionIsLocal | model/span.go:53-96 | A section under a span's lock changes the mark of that span alone, by that mark, the span's start and its reading. |
| SectionRefinement.ActionRefines | model/trace.go:128-554 | With the trace lock, the span locks and the clock's retry loop as separate steps, every step of every interleaving is invisible or is one whole section, at its successful swap or, if it reads no clock, at its write. |
| SectionRefinement.LockedRunsAreRuns | model/trace.go:128-554 | Every state reached that way is shown by a run of whole sections. |
| SectionRefinement.MemoryIsReachable | model/trace.go:128-554 | With no goroutine between its reading and its write, the memory under the locks and the clock are those of a trace reachable by whole sections. |
| SectionRefinement.SectionsProceed | model/trace.go:128-554 | There is no deadlock: in every run a goroutine inside a section can go on, and one that has a section next can enter it or waits for a goroutine that can go on and holds its lock. |
| LogScan.ScanIsAtomic | model/log.go:46-55 | In every run, whatever ends between the looks of the scan for an open span, it returns what an atomic scan would have at one of them. |
| Recording.OpenSpanIsInnermost | model/log.go:46-55 | The open span found is the listed one with the largest id that has not ended; none is found exactly when all have. |
| Recording.StateIndex | model/model.go:264-282 | The slot of a known state is its place in the table. |
| Recording.StateIndexOnto | model/model.go:81-90 | Every slot is the slot of the state at its place in the table. |
| StateForms.StateTimesAreElapsed | model/trace.go:513-526 | State times are non-negative and sum to at least the elapsed time, and to exactly that if and only if the trace runs or its last change was the close. |
| StateForms.FormsAgree | model/trace.go:495-526 | The map and the array report the same time for every known state exactly when the trace finished, its state is known, or no time passed since the last change. |
| StateForms.FormsSameTotal | model/trace.go:495-526 | The map and the array always add up to the same time. |
| SpanTrees.SharedIdBreaksTree | model/trace.go:160-163 | A concrete span that is its own parent: its context carried another trace's span under the same trace id. |
| SpanTrees.StartKeepsTreeIff | model/trace.go:160-163 | For every trace and parent, after a start every span's parent is an earlier one with one less depth exactly when that held before and the start is refused, its parent is not another trace's span under this id, or that span's number and depth are those of a span here. |
| Finishing.FinishEndsEverySpan | model/trace.go:529-554 | In every run, once the trace is closed and all calls returned, each retained span ended and ran at least one clock step, and each recorded span is retained or was dropped exactly once. |
| Finishing.CloseFreezesList | model/trace.go:546-549 | From the close on, the span list never changes. |
| Finishing.SpansAccountedFor | model/trace.go:132-165 | In every reachable state retained plus dropped spans are the starts tried before the close, a positive limit is kept, and ids and starts strictly increase along the list. |
| SpanTrees.SpansFormForestIff | model/trace.go:160-163 | In every run the spans form a forest, each child numbered and started after its parent and one deeper, exactly when every start so far met that condition; a misplaced span is never put right. |
| Finishing.EndIsRecordedOnce | model/span.go:51-67 | However many goroutines end a span, Finish among them, its duration is recorded once and stays. |
| DebugFilter.DroppedRanShort | model/debug_span.go:44-64 | In every reachable state a span dropped by the filter is a debug span that ended and ran for less than the minimum, which is positive. |
| DebugFilter.PlainSpansStay | model/span.go:67-75 | A span that was not debug when it ended stays on the list for good. |
| DebugFilter.DebugSpansStayIfLong | model/debug_span.go:44-64 | A span that was debug when it ended is off the list, once its End returned, exactly if a positive minimum is configured, it ran for less, and the trace had not finished when its filter ran. |
| Finishing.CallsReturn | model/trace.go:529-554 | In every reachable state a goroutine inside End or Finish has an enabled step, every step it takes lowers the steps left of its call, and no other goroutine's step raises them. |
| RecordedTime.DurationIsStateTime | model/trace.go:538-545 | The close leaves the duration at least one step and equal to the sum of the state times; afterwards it never changes and state times only grow. |
| RecordedTime.SlotsAreTimeInState | model/trace.go:196-228 | In every reachable state each timing slot holds exactly the time the trace spent in its states, and those stays cover the time from the start to the last change without a gap. |
| RecordedTime.TimesAreTimeInState | model/trace.go:515-526 | What a trace reports of each slot at any moment of any run is the time of the stays in its states, the stay that goes on included up to the reading while the trace runs. |
| RecordedTime.DurationsAreTimeInState | model/trace.go:495-511 | The map gives each known state the time of its stays, and the state of a running trace the time since its last change too, even where that state is not in the table. |
| RecordedTime.LateIffMoved | model/trace.go:196-228 | A closed trace's last change is later than its close exactly when some SetState or RecordError of the run moved it after the close. |
| RecordedTime.ErrorIsAbsorbing | model/trace.go:202-204 | Once in the error state a trace stays in it. |
| RecordedCalls.ErrorIffFailed | model/trace.go:196-228 | In every reachable state the trace is in error exactly if an error was recorded or that state was asked for. |
| RecordedCalls.StateIsLastAsked | model/trace.go:196-210 | Otherwise it is in the state last asked for, and starting before any was. |
| RecordedCalls.ErrorTextIsLast | model/trace.go:215-228 | The error text is the one last recorded, and empty before any was. |
| RecordedCalls.StartIsListed | model/trace.go:128-167 | A start while the trace runs and has room lists a new open span last, named, dated and linked as asked; any other start records none, and is counted while the trace runs. |
| RecordedCalls.SpanWasStarted | model/trace.go:142-164 | In every run each span was begun by one such start, still has its name, kind, start and parent, and is debug exactly if a call marked it since. |
| RecordedCalls.SpanErrorIsLast | model/span.go:83-96 | The error text of a span is the one last given to it. |
| RecordedCalls.EntryWasWritten | model/log.go:14-44 | In every run each log entry was written by one call while the trace ran and had room, in the order of the calls, as told and at a reading past all before. |
| RecordedCalls.RequestIsLastTold | model/trace.go:282-313 | The request shown is what the last call about it said: all of a request, or the status, size and known route of a response over the facts before it. |
| RecordedCalls.UpdateIsLastMoment | model/trace.go:128-313 | A trace is dated by the last moment it recorded that is not the end of a span, and by its start before there is one. |
| RecordedMoments.SpanMomentsNeverTie | model/clock.go:8-18 | In every reachable state span starts, span ends and the last state change are pairwise at different times. |
| RecordedMoments.LogMomentsNeverTie | model/clock.go:8-18 | A log line shares its time with no other line, no span start or end and not with the last state change. |
| TraceBox.Box.constructor | model/tracebox.go:58-60 | A new box is clear. |
| TraceBox.Box.Append | model/trace.go:140-164 | A span takes the next inline slot until they are used up and leaves the others alone, its pointer goes to the end of the list, and the box keeps the invariant of its partial reset, growth onto the heap included. |
| TraceBox.Box.Remove | model/debug_span.go:56-63 | The removal in place takes the last occurrence of a span off the list, and keeps that invariant. |
| TraceBox.Box.Reset | model/tracebox.go:36-52 | Clearing only the entries below `used` leaves every span slot and every pointer slot zero; the finalizer flag stays. |
| Recycling.CloneIsSafe | tracer.go:324-338 | In every interleaving of requests, background traces, finalizers and readers, a trace cloned under the read lock still owns its box, which is not pooled, and stands under its own id, even if live traces share ids. |
| ActiveReads.ReaderClonesEachOnce | tracer.go:429-433 | Between its lock and its unlock a reader clones each trace it wants that was active at its lock exactly once, and no other. |
| ActiveReads.RegisteredIsActive | tracer.go:231-236 | A trace made under an id stands on the active map under that id from its registration until a trace of that id is registered or taken off. |
| ActiveReads.RemovedIsInactive | tracer.go:257-261 | An id taken off stays off until a trace of that id is registered. |
| Recycling.HeldTracesAreOwned | tracer.go:205-221 | The trace a recorder closes, saves or releases, and a background trace a caller kept, is still its own. |
| Recycling.ReaderSeesOneMoment | tracer.go:429-433 | While a reader holds the lock the active traces are the ones it found. |
| Recycling.PoolAndFinalizers | model/tracebox.go:67-95 | No box is pooled twice, a pooled box has no finalizer, and a box is armed exactly while it has one. |
| Recycling.NoDoubleFinalizer | model/tracebox.go:81-87 | No finalizer is set on a box that has one. |
| Recycling.ReleaseReturnsBox | model/tracebox.go:67-74 | A request's release puts its box into the pool, once, and leaves the trace without one. |
| BoxLifecycle.TakenIsNew | model/trace.go:87-112 | A trace made in a pooled box takes it out of the pool under the new id, and no reference made before is to the trace then in it. |
| BoxLifecycle.FinalizerReturnsBox | model/tracebox.go:81-95 | Arming leaves a box with a finalizer; the finalizer, when it runs, puts the box into the pool once and leaves it without one. |
| BoxLifecycle.CallsProceed | tracer.go:205-271 | No call is stuck: in every reachable state a recorder can take its next step or waits for readers who each can go on, anybody at rest may begin, and a finalizer taken off may run. |
| BoxLifecycle.NextStepIsCloser | tracer.go:205-271 | Each such step brings the recorder one step closer to rest, with the same trace until then. |
| Tracer.Tracer.Begin | tracer.go:231-236 | A begun trace is counted as sampled and for its host, and active under its id; total stays sampled plus unsampled and the sum over hosts. |
| Tracer.Tracer.CountUnsampled | tracer.go:519-532 | A rejected request is counted as unsampled and for its host, with the placeholder for none. |
| Tracer.Tracer.Complete | tracer.go:257-271 | The locked section takes the id off the map, counts a failure and adds exactly the state times to the ledger. |
| Tracer.Tracer.Finish | tracer.go:245-271 | Finishing a running trace adds exactly its duration to the ledger, each state its part, and takes it off the map. |
| Tracer.Tracer.SumStateTime | tracer.go:324-338 | For each state the snapshot's sum is the ledger plus what every active trace reports of that state at a reading of its own; in total that is the ledger and the elapsed times exactly when no active trace changed state after its close, and more otherwise. |
| Tracer.Tracer.Reset | tracer.go:478-483 | The counters and the ledger start over; active traces stay. |
| Tracer.ChargeEach | tracer.go:262-266 | Each known state's total grows by its own time and no other total does. |
| Tracer.ChargeTotal | tracer.go:262-266 | The ledger grows by the sum of the charged times. |
| Totals.AddEntries | tracer.go:335-337 | Adding one map's entries to another gives the same table whatever order they are visited in. |
| Totals.TotalPlus | tracer.go:335-337 | The total of that table is the sum of the two totals. |
| Conservation.SnapshotConservesTime | tracer.go:245-338 | In every run with distinct ids and no Reset, late state changes included, a snapshot's state time is, in total and for each state, what Finish captured of the traces off the map plus what each trace on it reports, each counted once, even while its Finish is midway. |
| Conservation.SnapshotIsElapsedTimeIff | tracer.go:245-338 | That total is never less than the durations of the traces off the map plus the elapsed times of those on it, and equals them exactly when no trace was captured or counted after a state change that followed its close. |
| Conservation.LedgerIsCapturedTime | tracer.go:245-271 | The ledger is always, in total and for each state, the sum of the state times captured of the traces taken off the map. |
| Conservation.LedgerIsFinishedTimeIff | tracer.go:245-271 | The ledger is never less than the durations of those traces, and equals their sum exactly when none changed state between its close and its capture. |
| Conservation.ClosedCountsDuration | tracer.go:324-338 | A trace counted between its close and its removal counts with its duration exactly when it did not change state since the close. |
| Conservation.SectionsWork | model/trace.go:128-554 | Every critical section of a trace is a step of that model. |
| Conservation.SnapshotProceeds | tracer.go:324-338 | In every reachable state a snapshot may count any trace it has left, is then done with that one, and ends once none is left. |
| Conservation.TraceProceeds | tracer.go:231-271 | While nobody snapshots a trace may be put on the map, and taken off it once it was closed and its times captured. |
| LiveView.Broker.Subscribe | internal/broker.go:22-42 | A subscription adds one open, empty channel. |
| LiveView.Broker.Release | internal/broker.go:34-41 | Releasing takes the channel off the list before it is closed, and a second call changes nothing. |
| LiveView.Broker.Notify | internal/broker.go:46-59 | After a notification every subscriber has a token, and no send meets a closed channel. |
| LiveView.Drain | frontend/drain.go:4-15 | Draining leaves no token. |
| LiveUpdates.NoLostUpdate | frontend/handler.go:285-323 | In every interleaving, Reset included, a stream that waits without a token while no producer is between its update and its notification shows the current version of each half of the snapshot exactly when no Reset emptied that half after the stream read it. |
| LiveUpdates.ResetIsNotShown | tracer.go:470-484 | Whenever Reset empties both halves behind such a stream, the stream stays without a token, owed none, and shows old versions of both. |
| LiveUpdates.ResetLosesUpdate | tracer.go:470-484 | There is a run that ends with a stream waiting without a token, owed none, on old versions of both halves. |
| LiveUpdates.StaleStreamIsWoken | frontend/handler.go:296-323 | A waiting stream has a token, or a step that brings it one is enabled, or each half it shows is old exactly where a Reset followed its reading. |
| LiveUpdates.VersionsCountChanges | tracer.go:231-271 | The versions count the changes of each half: traces begun or completed and Resets of the counters, saves that succeeded and Resets of the log. |
| LiveUpdates.WokenStreamCatchesUp | frontend/handler.go:285-323 | From any state a run may reach, a waiting stream with a token shows the current version of both halves after six steps of its own. |
| LiveUpdates.NoSendOnClosed | internal/broker.go:46-59 | In every interleaving no send meets a closed or released channel. |
| Copies.Copy.CloneFrom | model/trace.go:425-491 | Whatever the destination held, it then shows the copy; it owns only what it owned before or has newly allocated. |
| Copies.Copy.CloneSpans | model/trace.go:460-476 | The block and the pointer list are reused where they fit, and hold exactly the frozen spans in order. |
| Copies.Clone | model/trace.go:414-418 | A clone shows the same as a copy into any slot, in memory of its own. |
| Copies.CopyOfCopy | model/trace.go:425-491 | Copying a stored copy of a finished trace again, at any moment, is the identity. |
| Copies.IdentityIffSettled | model/span.go:258-276 | A finished trace copies to the same value at every moment exactly when all its spans ended. |
| Copies.FinishedTraceSettles | model/trace.go:529-554 | A trace whose Finish and Ends have returned, in any run, is such a trace. |
| Copies.CopyShowsElapsed | model/trace.go:425-491 | At every moment of every run a copy shows what is recorded; of a trace or span that still runs, the time from its start to its reading of the clock, which is never negative. |
| Ring.Ring.constructor | internal/ring/ring.go:19-24 | A new ring of negative size holds nothing; any other has its size in empty slots. |
| Ring.Ring.Push | internal/ring/ring.go:30-41 | A push appends the copy to the log the ring stands for, leaves the other slots' contents, and reports the eviction of the entry that leaves. |
| Ring.Ring.List | internal/ring/ring.go:65-76 | The list is the last traces pushed, at most one per slot, newest first, without those that have no id. |
| Ring.NewestFirstIsReversed | internal/ring/ring.go:65-76 | That list is the entries with an id, each once, from the last pushed to the first. |
| Ring.Ring.Find | internal/ring/ring.go:79-90 | The trace found is the first of that list with the id; none for an empty id. |
| Ring.FirstWithIsFirst | internal/ring/ring.go:84-88 | The match has the id and nothing before it has; there is none exactly when no entry has it. |
| Ring.Ring.Len | internal/ring/ring.go:44-52 | The length is the number of entries retained. |
| Ring.Ring.Reset | internal/ring/ring.go:93-100 | After a reset the ring stands for an empty log. |
| Ring.LastOfPush | internal/ring/ring.go:30-41 | Pushing drops the oldest entry once the log is as long as the ring. |
| MemoryStorage.MemoryStorage.Save | storage/memory_storage.go:32-40 | A save pushes the trace unless the context is cancelled. |
| MemoryStorage.MemoryStorage.Load | storage/memory_storage.go:44-55 | A load returns a copy of the newest trace with the id in memory of its own, or not found, or the cancellation. |
| MemoryStorage.MemoryStorage.List | storage/memory_storage.go:59-75 | A listing returns the retained traces newest first, cut at a positive limit, as copies that share memory with nothing. |
| MemoryStorage.MemoryStorage.Len | storage/memory_storage.go:78-85 | The number of entries retained. |
| MemoryStorage.MemoryStorage.Reset | storage/memory_storage.go:95-103 | A reset forgets every trace unless cancelled. |
| MemoryStorage.MemoryStorage.LoadThenSave | storage/memory_storage.go:42-43 | A later save, whatever slot it rewrites, does not change what a load handed out. |
| DiskStorage.DiskStorage.constructor | storage/disk_storage.go:48-79 | A new storage has an empty ring of the limit's size over the folder. |
| DiskStorage.DiskStorage.Save | storage/disk_storage.go:119-167 | A save writes, prunes and then pushes. A cancelled, misnamed or unwritten trace reaches neither folder nor ring; a failing prune, or a context cancelled after the write, leaves the document written and the ring alone. |
| DiskStorage.DiskStorage.Prune | storage/disk_storage.go:278-292 | Pruning removes the oldest documents over a positive limit and leaves exactly the newest; with no limit it removes nothing; a failing listing or removal stops it, with the oldest documents before the failure gone. |
| FolderPrune.NextPruneCatchesUp | storage/disk_storage.go:278-292 | Whatever a failing prune left, a prune after it leaves the same documents as one that had not failed. |
| DiskStorage.DiskStorage.Names | storage/disk_storage.go:260-274 | The listing is all the folder's names in increasing order. |
| DiskStorage.DiskStorage.Restore | storage/disk_storage.go:84-108 | A restore pushes the newest documents up to the limit, oldest first, skipping what does not decode, and stops where the context is cancelled. |
| DiskStorage.DiskStorage.Load | storage/disk_storage.go:171-195 | A load answers from the ring, else from the document of a valid identifier, with the source's errors. |
| DiskStorage.DiskStorage.List | storage/disk_storage.go:197-201 | A listing is the ring's: its last traces newest first, as copies, cut at a positive limit. |
| Restarts.RestartKeepsList | storage/disk_storage.go:77-108 | After saves in increasing id order into an empty folder with a positive limit, a new storage that restores lists the same ids in the same order. |
| RestartedList.Restart | storage/disk_storage.go:77-138 | A storage saves into an empty folder, a new one opens it, restores and lists: both list the identifiers of the last traces up to the limit, newest first. |
| Restarts.SavesKeepLast | storage/disk_storage.go:119-167 | After such saves the folder holds exactly the documents of the last traces. |
| Documents.NameOrder | storage/disk_storage.go:296-301 | Document names sort the way identifiers of one length do. |
| Documents.RestoredReadsAsRunning | storage/disk_storage.go:98-105 | Every copy of a restored trace reads as in flight; its copies keep the saved span durations at all readings exactly when it has no spans, and its own duration at all readings exactly when that is not zero. |
| Documents.RestoredShowsRest | storage/disk_storage.go:98-105 | Everything else a restored trace shows is what was saved: its facts, its request, its log, and of each span all but the time and the end. |
| PrunedFolder.FolderHoldsTop | storage/disk_storage.go:140-167 | Over every interleaving of savers, with listings that are not atomic, the folder always holds the newest names ever written, up to the limit. |
| PrunedFolder.FolderIsTopAtRest | storage/disk_storage.go:140-167 | Once every saver has returned, and one wrote a document since the last prune that failed, it holds exactly those. |
| PrunedFolder.UnlimitedFolderKeepsAll | storage/disk_storage.go:278-281 | Without a positive limit nothing is ever removed. |
| PrunedFolder.EverIsWritten | storage/disk_storage.go:140-167 | The names ever written are those the folder had at first and those the savers of the run wrote. |
| PrunedFolder.ListingIsLoose | storage/disk_storage.go:260-274 | A listing under way may show any set of names that holds all that were there throughout and only such as were there at some moment of it. |
| PrunedFolder.SaversGoOn | storage/disk_storage.go:140-167 | No saver is ever stuck. |
| TopNames.TopIsTail | storage/disk_storage.go:286-290 | The end of the sorted listing is the set of names with fewer than the limit above them. |
| Ulid.NewID | model/id.go:15-37 | An identifier is accepted by ValidID and stands for the time modulo 2^48 followed by the random bits; it fails exactly when the random source does. |
| Ulid.FiveBits | model/id.go:27-33 | The inner loop computes the five bits of the stream a digit stands for. |
| Ulid.ValidID | model/id.go:41-58 | Exactly the strings of 26 characters of the alphabet are accepted. |
| Ulid.EncodeIsNumeral | model/id.go:24-36 | The bit loops write the base-32 numeral of the 128-bit value. |
| Ulid.EncodeInjective | model/id.go:24-36 | Different values are written differently. |
| Ulid.EncodeOnto | model/id.go:39-58 | A valid identifier is one NewID can write exactly when its first digit is at most seven. |
| Ulid.OrderIsNumeric | model/id.go:14-37 | Identifiers compare as strings the way their values compare. |
| Ulid.TimeOrder | model/id.go:14-37 | An identifier of a later millisecond sorts later, whatever the random bits, within 48 bits of time. |
| Timeline.Timeline | frontend/view/timeline.go:14-98 | Every instant is painted with the kind of its innermost counted span and no other instant is; segments are increasing, disjoint, inside the trace, with no two touching ones of one kind, and carry exact shares. |
| Timeline.FindInnermost | frontend/view/timeline.go:65-74 | The loop at a boundary finds the deepest covering interval, then the one that starts latest, then the first. |
| Timeline.BestIsInnermost | frontend/view/timeline.go:65-74 | That choice is the one interval nothing covering the instant is further in than. |
| Timeline.PaintedIffCounted | frontend/view/timeline.go:30-77 | An instant is painted exactly when a measured span other than the request itself covers it within the trace, and with the kind of the innermost such span: the deepest, then the one that starts latest within the trace, then the first recorded. |
| Timeline.PaintingDecides | frontend/view/timeline.go:79-97 | What is painted leaves one list of segments. |
| KindShares.KindShares | frontend/view/page.go:466-486 | There is one entry per kind, largest first, with the number of instants painted in that kind and its share. |
| KindShares.TotalIsInstants | frontend/view/page.go:466-486 | The time of a kind's segments is the number of instants painted in it. |
| Rows.Rows | frontend/view/timeline.go:101-165 | For any parent links over distinct non-zero ids, cycles and missing parents included, it returns, with every span exactly once: the walk from the roots, then the rest in list order. |
| Rows.Walk | frontend/view/timeline.go:116-135 | The recursion ends, because a path of parents never comes back, and appends the preorder below its parent. |
| Rows.RowsHoldEverySpanOnce | frontend/view/timeline.go:101-165 | The rows are as many as the spans and hold each of them. |
| Rows.WalkedIsReachable | frontend/view/timeline.go:116-135 | The walk lists exactly the spans whose ancestors lead to a root. |
| Rows.ParentsComeFirst | frontend/view/timeline.go:116-135 | In the walk every row follows its parent's row. |
| RowOrder.SiblingsInOrder | frontend/view/timeline.go:110-135 | Walked rows of one parent stand in the order of their places in the span list. |
| RowOrder.BelowWithoutGap | frontend/view/timeline.go:116-135 | The rows below a row follow it without a gap. |
| RowOrder.LastIffNoLaterSibling | frontend/view/timeline.go:118-131 | A walked row is marked last exactly if no later span of the list has its parent. |
| RowOrder.MissedInOrder | frontend/view/timeline.go:137-164 | The rows the walk missed follow it in list order, each marked last. |
| RowOrder.RowsTell | frontend/view/timeline.go:119-163 | Each row tells how far after the trace its span started, the percentages of the trace that this and its length are, and whether it has no duration. |
| Rows.PathIsShort | frontend/view/timeline.go:116-135 | A path of parents is no longer than the span list. |
| Statistics.Top | model/stats.go:24-76 | The list is the one ranking of the window's groups, cut at a positive limit; what it tells of the requests is `RouteGroups.TopIsBusiest`. |
| Statistics.Collect | model/stats.go:23-48 | The loop yields each group's counts, totals and maximum under its key, and the keys in order of appearance. |
| RouteGroups.CountedTogether | model/stats.go:185-193 | With verbs that hold no space and no key clash, two traces of a window are counted together exactly if their hosts are equal and so are, with known routes, verb and route, without, the names, or the one's name is the other's verb, a space and route. |
| RouteGroups.GroupsTellOfRequests | model/stats.go:24-48 | Each trace of the window is told of by a group and each group tells of a trace: its entry has the host and the verb, a space and the route, or the name; its count, errors, totals and maximum are those of the traces counted together. |
| RouteGroups.TopIsBusiest | model/stats.go:50-77 | The list holds such entries alone, those of more traces first, then of more time, then by name and host; every group is listed, or the list is as long as the limit and every entry leads it. |
| Statistics.ListPermutes | model/stats.go:12-78 | Permuting the window or the visiting order gives the same cut list when no two groups share a key text. |
| Statistics.OrderIndependentIffNoClash | model/stats.go:26-33 | The groups are independent of the window's order exactly when no two traces write one key text for different names or hosts. |
| Statistics.NulFreeHostsDoNotClash | model/stats.go:26-28 | Hosts without a NUL keep groups apart. |
| Statistics.NulClashes | model/stats.go:26-28 | Two concrete traces of different groups that share a key text. |
| Statistics.AverageOfGroup | model/stats.go:39-54 | A listed group has traces, and its average duration never exceeds its maximum. |
| HostStatistics.HostList | model/stats.go:83-143 | The list is the ranking of every host seen in the window or counted by the tracer. |
| RouteGroups.HostsTellOfRequests | model/stats.go:83-156 | The list has one entry for each host requested or seen, with the lifetime requests, traces, errors, time, maximum, spans and routes of the traces that go by it, and puts more requests, then more traces, then the smaller name first. |
| HostStatistics.HostStatisticsPermute | model/stats.go:83-143 | The list depends on neither the window's order nor any map's. |
| HostStatistics.CountsSumToWindow | model/stats.go:24-58 | Uncut, the groups' counts sum to the size of the window. |
| HostAgreement.HostTracesAreGroupCounts | model/stats.go:83-143 | In every window a named host's groups count its traces, less those whose group goes by another host, plus those of other hosts in groups that go by it. |
| HostAgreement.HostRoutesAreGroups | model/stats.go:116-122 | In every window a named host has at least as many routes as groups, and as many exactly when no trace of it is in a group that goes by another host. |
| HostAgreement.AgreementIffNoClash | model/stats.go:12-143 | Over all orders of a window and all named hosts, the two lists agree on traces, and on routes, exactly when no two groups share a key text. |
| HostAgreement.ClashBreaksAgreement | model/stats.go:26-33 | Where two groups clash, the order that puts the longer host last gives that host more traces than its groups count and more routes than it has groups. |
| HostStatistics.AverageOfHost | model/stats.go:111-124 | A host's average duration never exceeds its maximum. |
| MergeRows.MergeRows | frontend/view/assets/oida.js:44-89 | Keyed rows end up first in the incoming order with the incoming content, and the result is exactly those if and only if the page's rows were all keyed with distinct keys; unkeyed markup is taken over as it is. |
| MergeRows.Merge | frontend/view/assets/oida.js:57-88 | Each place holds the page's own element where its markup and mark are the incoming ones and the incoming element otherwise; only rows that met none are marked new; what no row met is removed. |
| MergeRows.MergeTwice | frontend/view/assets/oida.js:44-89 | Merging one list twice into a well keyed page replaces exactly the rows the first merge marked new, those whose key was not on the page, keeps every other element, and leaves no mark. |
| MergeRows.UnreachedIffIllKeyed | frontend/view/assets/oida.js:57-63 | Rows are left behind exactly when some row has no key or two share one. |
| MergeRows.IndexIsLast | frontend/view/assets/oida.js:57-63 | The row of the page that stands for a key is the last one that has it. |
| MergeRows.Feed.InsertAt | frontend/view/assets/oida.js:81-83 | Inserting a node already in the list moves it. |

## Hypotheses

- Clock guarantees hold for a trace that has its box; after `Release` readings
  come straight from the configured clock.
- `Tracer.Finish` is called once per trace; the state-time model has no `Reset`
  and distinct live ids.
- Callers keep the ownership contract: nothing outside the middleware keeps a
  request's trace, and nobody writes to a span whose box was recycled.
- `Rows` gets distinct non-zero ids, which every recorded list has.
- The verb of an HTTP request is a token (section 9.1 of RFC 9110), so it holds no space.
- Critical sections are atomic steps. For those of one trace, the clock's retry
  loop included, this is proved in `SectionRefinement`; there the locks exclude
  each other and the compare-and-swap is atomic.
- Span lists hold no nil entries.

## Left out

- The collector and the caches inside `sync.Pool`: eviction from the pool is one step, and a finalizer is a step enabled when nothing reaches the box.
- Copies.Copy.CloneFrom: reads its source as one value, where the source copies a running trace's spans one lock at a time; attributes, memory counters, service and file names are not modelled.
- SectionRefinement.ActionRefines: copies and state times are not among the sections, since they write nothing.
- MemoryStorage.MemoryStorage.List: its lock is not modelled; each method is one locked call.
- DiskStorage.DiskStorage.Save: everything that fails before the rename is one flag; temporary files, permissions and other names in the folder are not modelled.
- DiskStorage.DiskStorage.Restore: documents decode to what encoding kept or to nothing; the JSON text is not modelled.
- LiveUpdates.NoLostUpdate: the active half changes when a trace joins or leaves the map or the ledger starts over, not with a live trace's own spans; heartbeats write no state, a write that fails ends the stream, and a listing that fails, which shows an empty log, is not modelled.
- Timeline.Timeline: shares are exact quotients where the source rounds to floating point; sort.Slice and slices.Compact are modelled by their results. Instants are integers, so that slices.Compact compares time values, location included, is not seen.
- Statistics.Top: percentages and the averages of bytes, allocations and spans are not modelled, only the totals behind them.
- MergeRows.MergeRows: a key that names a property every JavaScript object inherits, such as "constructor", is not modelled.
- Tracer.Tracer.SumStateTime: the sequential form; the interleaved one is `Conservation.SnapshotConservesTime`. Snapshot's dropped, memory and SLA figures are left out.
- `Tracer.Trace` reads storage and the active map at two instants, so a trace is in neither for a moment; nothing is claimed about it.
- Age pruning and folder reset remove documents unconditionally and run beside no claim about the folder.
- The rate sampler: one atomic counter, an easy member.
- StateDurations, Elapsed of a span, setters of names, attributes and sources, log formatting: field by field.
- HTTP routing, templates, authentication, options and their validation: nothing stateful to prove.
- Overflow of 64-bit clocks and counters.
