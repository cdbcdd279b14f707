# A verified model of the growing streams, their buffers and their clocks

This Dafny project models the parts of the Dispatcharr PVR client and of its two server plugins in which correctness
depends on many steps fitting together, and proves that they do, or exactly when they do.

**The live timeshift stream, server and client together.** An encoder closes numbered segments into a ring of reused
file names (`TimeshiftRing`). The plugin turns its sliding playlist into a manifest through a cache each worker process
keeps for itself (`TimeshiftManifest`). A client merges the repeated windows into one fixed-origin address space
(`AddressSpace`, `LiveTimeshiftStream`), trims it at opening, and serves reads and seeks from it, waiting at the tail
(`TailWait`). `LiveFidelity` puts all of it into one state machine, with any number of workers and viewers, buffer
deaths and restarts, and proves that every byte ever handed out is the right one; `LiveClientCalls` shows that the
client's opening, reads and seeks are runs of that machine.

**The recording that is still being written.** `InProgressRecording` is the merge of its playlist, with the probes that
learn segment sizes and the cache that outlives the stream; `RecordingStream` is what reads and seeks make of it,
`RecordingSession` what whole sessions do, and `ReopenedRecording` what closing the stream and opening it again does.

**The buffers' lives.** `BufferLifecycle`: start, stop, heartbeat, fetch, manifest, reaper pass, process death and
clock advance, as atomic steps over the tracked buffers and the running processes. `ManifestRequests` shows that what a
manifest request answers (`TimeshiftManifest`) and what it books here fit together.

**The WebSocket receiver.** `WebSocketFrames` is the framing of RFC 6455 (sections 5.2 to 5.5) and the receive loop told
on bytes and on frames; `WebSocketClient` is the imperative receiver over a stream that arrives in arbitrary pieces;
`WebSocketTimeouts` is what a call that runs out of bytes does to the calls after it.

**Calendar, zones and clean-up.** `Gregorian` gives `timegm` and `gmtime` a definition from the calendar,
`DaylightSaving` the zone rules the client computes itself, `CivilText` the two textual timestamp forms and `IsoText`
for which instants the one of them reads back (with `Decimal` for printed numbers), `DirectorySweep` the recording
plugin's scrub of orphaned sidecars and empty directories.

In each module the specification functions come first, the theorems about them next, and the imperative code (classes
with the source's fields, loops with invariants) is proved to compute those functions. Requests to a server are
parameters: a function from the attempt's number to the reply, so that a theorem about a read or an opening holds for
every sequence of successes and failures. Times are integer milliseconds or seconds, and a clock reading is a parameter.

## What the proofs show about the code's own claims

* *The manifest cache.* The documentation calls it never stale and says the newest entry is always looked at again
  (dispatcharr-plugin/timeshift_buffer/plugin.py:906-930). The branch for an unchanged playlist looks at no segment file,
  so the newest may grow unseen (`TimeshiftManifest.StaleNewestShows`), and a size sampled while an entry was the newest
  is reused as soon as it no longer is (`TimeshiftManifest.StaleSizeShows`). `TimeshiftManifest.CacheTransparency` gives
  the exact condition for the cache to be invisible, and `LiveFidelity.LiveCacheIsInvisible` shows that encoders whose
  sizes are final once listed meet it.
* *The merge* reads the last known sequence once per response, so it keeps the list strictly increasing exactly when the
  accepted part of each response is (`LiveTimeshiftStream.MergeStrictness`). The plugin's responses are
  (`LiveFidelity.ListingIsTrue`).
* *The ring.* A file is opened again exactly when the writer is 2 x visible segments past it, which is visible - 1
  segments after the playlist dropped it, one less than a count of visible segments
  (`TimeshiftRing.RingSafety`, `TimeshiftRing.RingBoundIsSharp`).
* *A segment that could not be sized.* The comment at src/DispatcharrClient.cpp:2247-2254 calls it a gap that is never
  tried again. What matters is whether a probe succeeded after one that failed. If none did, the failed segments are
  tried again and nothing is wrong (`InProgressRecording.FaithfulExactly`, `InProgressRecording.FaithfulRun`). If one did,
  the next refresh in which all probes succeed lists a segment a second time (`InProgressRecording.GapThenTwice`).
* *The segment cache across openings.* What was listed when the entry was last erased is missing from it for good
  (`InProgressRecording.EntryExactly`). One failed lookup erases it. Closed right then, nothing is lost: the next answer
  brings everything back. But if the playlist grows first, the entry is rebuilt from the new suffix alone, with the full
  totals. Closing and opening again reaches the address space of the stream that was never closed exactly when no
  playlist grew after such a report (`ReopenedRecording.ReopenEqualsNeverClosing`); after one that did, the first read
  returns 0, the sign of the end (`ReopenedRecording.BrokenReopening`, and `ReopenedRecording.OneFailedLookup` for one
  run of three refreshes).
* *Pongs* decode back to the ping exactly up to 65535 bytes (`WebSocketFrames.PongEchoes`); the first text message is
  delivered exactly when no fragmented binary message was completed before it
  (`WebSocketFrames.DeliversFirstTextExactly`).
* *Timeouts.* A receive call starts with nothing collected, and what a timed-out call took off the stream is gone. The
  next call shows, with every continuation, what one call would have shown with everything, exactly when the bytes so
  far were whole frames and less than a header, with no text bytes collected
  (`WebSocketTimeouts.TimeoutIsHarmlessExactly`). A timeout inside the payload of a one-frame text loses it for good
  (`WebSocketTimeouts.TimeoutInsideFrameLosesIt`). What a harmful timeout shows is not always a message: a pong cut short
  in the right place is made up for by any next byte, and only a second timeout tells
  (`WebSocketTimeouts.CutPongMayGoUnnoticed`).
* *Process identifiers.* A start takes a buffer for running when any process has the recorded identifier. After the
  system has given it out again that may be another channel's encoder (`BufferLifecycle.TakenForAliveExactly`,
  `BufferLifecycle.ReusedPid`), and only a buffer that is the sole one to record its identifier is safe from the stops
  of others (`BufferLifecycle.SignOfLifeProtects`).
* *Timestamps.* The ISO form reads back for years that print as four characters, and for those that print as three
  exactly when no later field has two digits (`IsoText.IsoRoundTripExactly`).

## Model

| member | source | states |
|---|---|---|
| LiveFidelity.EveryByteIsRight | src/DispatcharrClient.cpp:3210-3470 | end-to-end fidelity: after any run of encoder writes, segment closings, buffer stops and restarts, manifest calls on any worker, cache losses, openings, refreshes, seeks and timely reads, a session's listed segments of its own instance are existing ones at their true sizes, and everything it was ever handed is the slice at its read position of their joined true contents |
| LiveFidelity.StepKeepsInv | src/DispatcharrClient.cpp:2978-3002 | every step keeps: encoders valid, every worker's cache entry the cold one of some past state of its instance, every session's list chained from 0, strictly increasing and true to its instance, every delivery a slice |
| LiveFidelity.CachedAnswerIsCold | dispatcharr-plugin/timeshift_buffer/plugin.py:1064-1221 | in every reachable state a manifest request is answered as if its worker had nothing cached, across restarts that reuse the same sequence numbers and names |
| LiveFidelity.ListingIsTrue | dispatcharr-plugin/timeshift_buffer/plugin.py:1096-1214 | a listing of a live buffer is strictly increasing in sequence and names existing segments at their true sizes |
| LiveFidelity.WarmUpExactly | dispatcharr-plugin/timeshift_buffer/plugin.py:990-1019 | while a buffer is live a request on any worker gets a listing if and only if a segment was closed, and before that a failure that is final if and only if the encoder is dead |
| LiveFidelity.NoBufferNoAnswer | dispatcharr-plugin/timeshift_buffer/plugin.py:1823-1825 | without a buffer a request fails, not finally, and leaves every cache as it is |
| LiveFidelity.ReceivesKeepsSession | src/DispatcharrClient.cpp:2978-3002 | receiving a listing, even another instance's, keeps a session right, and what it had handed out stays a slice of its longer stream |
| LiveFidelity.ReadDelivers | src/DispatcharrClient.cpp:3354-3469 | a timely read of the session's live instance finds a segment and returns the next min(size, rest of the segment) > 0 bytes of the stream, the position advancing by as many |
| LiveFidelity.ReadExactly | src/DispatcharrClient.cpp:3427-3469 | what any read of the own live instance gets, timely or not: nothing without the file, nothing and a dead stream (or just nothing, behind its end) from a file of another size than listed, and from one of the listed size its bytes, right if and only if it still holds the segment there |
| LiveFidelity.ForeignBufferRefuses | dispatcharr-plugin/timeshift_buffer/plugin.py:329-346 | a read that holds another instance's token changes nothing and hands out nothing |
| LiveFidelity.NothingAfterDeath | src/DispatcharrClient.cpp:1142-1147 | one instance per session: once a session's buffer instance is gone it never comes back under its token, and the session is handed nothing more in any continuation |
| LiveClientCalls.ReadIsARun | src/DispatcharrClient.cpp:3260-3469 | a client's read, for the replies the system gives it, is a run of its wait's manifest requests with anything by others in between and one ranged request: same list and position in the end, and the session's log grows by exactly what the client was handed |
| LiveClientCalls.ClientReadsRightBytes | src/DispatcharrClient.cpp:3210-3470 | so in every reachable state the bytes the client's read hands out are the slice at its position of the joined true contents of the instance it opened |
| LiveClientCalls.SeekIsARun | src/DispatcharrClient.cpp:3472-3567 | a client's seek is a jump of its session, after one manifest request when it goes by the end |
| LiveClientCalls.OpeningIsARun | src/DispatcharrClient.cpp:3068-3208 | a client's successful opening is a session's start and its requests up to the first listing, and leaves the session that the opened stream describes |
| LiveClientCalls.OpeningSurvivesWarmUp | src/DispatcharrClient.cpp:3107-3121 | an opening whose requests find a buffer with a running encoder is never told to give up, and if a segment is closed by one of the first thirty it ends at the first listing, at that request or before |
| TimeshiftManifest.CacheTransparency | dispatcharr-plugin/timeshift_buffer/plugin.py:1064-1221 | over every run of calls and cache losses on any workers the cache cannot be told from its absence if and only if any two looks at one instance find, under one stamp, the same existing segments at the same sizes, and under different stamps the same size for every segment both list below the newest |
| TimeshiftManifest.FinalExactly | dispatcharr-plugin/timeshift_buffer/plugin.py:990-1019 | for every cache: the answer is final if and only if there is no playlist and the encoder is dead, and "not ready" if and only if there is none and it runs |
| TimeshiftManifest.SameColdExactly | dispatcharr-plugin/timeshift_buffer/plugin.py:1089-1221 | two looks give the same manifest without a cache if and only if the same segments exist with the same numbers, names, durations and sizes, counted from the same number |
| TimeshiftManifest.AgreedAnswer | dispatcharr-plugin/timeshift_buffer/plugin.py:1064-1175 | one call: a cache left by an agreeing look answers like no cache and leaves what one of the two looks alone would leave |
| TimeshiftManifest.DisagreementShows | dispatcharr-plugin/timeshift_buffer/plugin.py:1064-1175 | the converse: if the warm answer is the cold one, the two looks agree |
| TimeshiftManifest.StaleSizeShows | dispatcharr-plugin/timeshift_buffer/plugin.py:1132-1167 | counterexample family: a size sampled while an entry was the newest is what the warm cache answers when the next entry has joined it, and the next is placed by it, whatever size the file then has |
| TimeshiftManifest.StaleNewestShows | dispatcharr-plugin/timeshift_buffer/plugin.py:1075-1087 | and as long as the playlist keeps its stamp, the newest entry is answered at the size of the first look |
| TimeshiftManifest.PlacedAt | dispatcharr-plugin/timeshift_buffer/plugin.py:1190-1207 | each listed segment keeps name, sequence, size and duration and starts where the sizes and durations before it add up to |
| TimeshiftManifest.PlacedEndToEnd | dispatcharr-plugin/timeshift_buffer/plugin.py:1199-1215 | the first segment starts at 0, each next one where its predecessor ends in bytes and in milliseconds, and the totals are the end of the last |
| TimeshiftManifest.ResolveAscends | dispatcharr-plugin/timeshift_buffer/plugin.py:1104-1173 | entries are strictly increasing in sequence and inside the playlist's numbering, whichever segments were dropped or sized from the cache |
| TimeshiftManifest.ParseLines | dispatcharr-plugin/timeshift_buffer/plugin.py:1091-1129 | the two parsing loops compute the first media sequence and the numbered (name, duration) entries of a playlist |
| TimeshiftManifest.ParsePlaylistExactly | dispatcharr-plugin/timeshift_buffer/plugin.py:1091-1130 | the k-th duration line that a name follows gives the entry numbered k above the first media sequence, 0 without a usable one, with that name and duration, and there are no others |
| TimeshiftManifest.ResolveSizes | dispatcharr-plugin/timeshift_buffer/plugin.py:1131-1173 | the sizing loop: cached size for a known sequence and name, except for the newest; stat otherwise; dropped when that fails |
| TimeshiftManifest.LayOut | dispatcharr-plugin/timeshift_buffer/plugin.py:1183-1221 | the running-sum loop lays the entries end to end, or reports that there are none |
| TimeshiftManifest.ManifestCache.GetLiveManifest | dispatcharr-plugin/timeshift_buffer/plugin.py:960-1221 | the answer and the channel's new cache entry are those of the specification (fatal or not ready without a playlist, a token mismatch counts as no entry), other channels' entries untouched |
| TimeshiftManifest.ManifestCache.Forget | dispatcharr-plugin/timeshift_buffer/plugin.py:165-176 | after a buffer's state was deleted this worker answers every look at that channel as if it never had one, and every other channel as before |
| TimeshiftRing.RingSizesFit | dispatcharr-plugin/timeshift_buffer/plugin.py:613-624 | every setting but a segment length of 0 gives a ring of at least one visible segment and twice as many names, and as many visible ones as fill the configured minutes |
| TimeshiftRing.OverwrittenExactly | dispatcharr-plugin/timeshift_buffer/plugin.py:613-624 | a segment's file name is the one being written if and only if the writer is a multiple of the ring size ahead |
| TimeshiftRing.RingSafety | dispatcharr-plugin/timeshift_buffer/plugin.py:613-624 | no file of the current playlist is being written; all hold what they were closed with, and keep it until the writer is 2 x visible past them |
| TimeshiftRing.RingBoundIsSharp | dispatcharr-plugin/timeshift_buffer/plugin.py:614-624 | at exactly that distance the file holds whatever is written next |
| TimeshiftRing.CloseKeepsValid | dispatcharr-plugin/timeshift_buffer/plugin.py:663-681 | closing a segment and opening the next file keeps every file fewer than the ring size behind the writer intact |
| TimeshiftRing.SegmentNameInjective | dispatcharr-plugin/timeshift_buffer/plugin.py:635 | different ring slots have different file names, however many digits their numbers need |
| TimeshiftRing.SegmentNameExactly | dispatcharr-plugin/timeshift_buffer/plugin.py:635 | a name is the slot's number in at least five digits between "seg_" and ".ts" |
| TimeshiftRing.ParseInvertsPrint | dispatcharr-plugin/timeshift_buffer/plugin.py:1089-1129 | parsing the playlist the encoder writes gives back its window: numbers, names and durations |
| TimeshiftRing.ColdManifestIsTrue | dispatcharr-plugin/timeshift_buffer/plugin.py:1089-1175 | a manifest built from nothing lists exactly the current window with the closed segments' true sizes |
| TimeshiftRing.SnapshotsAgree | dispatcharr-plugin/timeshift_buffer/plugin.py:1131-1167 | an earlier look at one instance and a later one agree |
| TimeshiftRing.LaterAgreesWithEarlier | dispatcharr-plugin/timeshift_buffer/plugin.py:1131-1167 | and so do a later one and an earlier one |
| LiveFidelity.LiveCacheIsInvisible | dispatcharr-plugin/timeshift_buffer/plugin.py:1064-1221 | all looks at any instances with different tokens, at any times, meet the condition of CacheTransparency in both orders, so in every run over them every cached answer is the cold one |
| TimeshiftRing.ParseRange | dispatcharr-plugin/timeshift_buffer/plugin.py:301-327 | the served slice is exactly the bytes of the file the header asks for, the whole file is served if and only if there is no usable range, and the range is refused if and only if no byte of the file is asked for (or a malformed one starts before it) |
| TimeshiftRing.ServeExactly | dispatcharr-plugin/timeshift_buffer/plugin.py:329-416 | without a buffer of that token 403, without the file 404; otherwise the whole file, the asked-for part with the file's size, or 416 with it and nothing |
| AddressSpace.OffsetsArePrefixSums | src/DispatcharrClient.cpp:2996-3001 | in a chained space every offset is the sum of the sizes before it, and the total the sum of all |
| AddressSpace.NoGap | src/DispatcharrClient.cpp:3354-3378 | the search finds a segment if and only if the position is below the total, so the "gap" branch is unreachable |
| AddressSpace.SegmentsAreDisjoint | src/DispatcharrClient.cpp:3354-3362 | at most one segment holds a position |
| AddressSpace.SliceInSegment | src/DispatcharrClient.cpp:3380-3384 | a range inside the segment a position falls in is the stream's slice at that position |
| AddressSpace.FindSegment | src/DispatcharrClient.cpp:3354-3362 | the loop returns the first segment holding the position, or none when none does |
| AddressSpace.RebaseKeepsChained | src/DispatcharrClient.cpp:3150-3165 | dropping leading segments and rebasing leaves a space chained from 0 |
| LiveTimeshiftStream.MergeExtends | src/DispatcharrClient.cpp:2983-3002 | position stability: a merge only appends, and keeps the space chained |
| LiveTimeshiftStream.MergeAppendsFresh | src/DispatcharrClient.cpp:2983-3002 | what is appended are the accepted entries in the response's order, with their own names, sequences and sizes |
| LiveTimeshiftStream.FreshExactly | src/DispatcharrClient.cpp:2983-2994 | accepted are exactly the entries with a name and a size whose sequence is above the last one known |
| LiveTimeshiftStream.MergeDurations | src/DispatcharrClient.cpp:2983-3001 | old segments last as long as before, appended ones as long as the response says |
| LiveTimeshiftStream.MergeStrictness | src/DispatcharrClient.cpp:2980-3001 | the list stays strictly increasing if and only if the accepted part of the response is |
| LiveTimeshiftStream.ReplyExactly | src/DispatcharrClient.cpp:2948-2962 | to the client only the dead encoder's answer is final; not ready and no segments are to be retried |
| LiveTimeshiftStream.RefreshIdempotent | src/DispatcharrClient.cpp:2980-3002 | merging the same response again changes nothing |
| LiveTimeshiftStream.TrimCommutesWithMerge | src/DispatcharrClient.cpp:3150-3165 | trimming and then merging any later windows equals merging them all and then dropping the same segments and rebasing |
| LiveTimeshiftStream.TrimKeepsThree | src/DispatcharrClient.cpp:3150-3165 | the trimmed list is the last three segments, or all of fewer |
| LiveTimeshiftStream.DroppedStayDropped | src/DispatcharrClient.cpp:3150-3165 | whatever later windows list, every segment added after the trim is newer than all those known before it |
| LiveTimeshiftStream.ReadAccounting | src/DispatcharrClient.cpp:3260-3469 | in every read, for all replies: the list only grows, the position moves by exactly the bytes returned and not at all on 0 or -1, and when there is something at the position, before or after the wait, a segment holds it, the same as before |
| LiveTimeshiftStream.ReadAnswersExactly | src/DispatcharrClient.cpp:3354-3469 | what a read makes of the answer to its request, at a position the first segment to hold it is named for: no answer fails, 404 gives 0, every other status but 200 and 206 fails, all three changing nothing and handing out nothing; a total that is not the listed size ends the stream; otherwise it hands out the leading bytes of the body, at most what was asked for and what is left of the segment, and moves by as many |
| LiveTimeshiftStream.ReadAfterWait | src/DispatcharrClient.cpp:3336-3354 | a read whose wait brought something goes on like one that found it there, and the memory of a short wait is gone |
| LiveTimeshiftStream.TailReadWaitsExactly | src/DispatcharrClient.cpp:3260-3352 | a read at the tail merges the replies one by one and ends its wait at the first that brings something to its position or says the buffer is dead, or when the budget is used; it returns 0 from the wait only in the last case, remembering the position if the budget was the short one |
| LiveTimeshiftStream.SeekThenReadNeedsNoWait | src/DispatcharrClient.cpp:3472-3567 | a seek lands at the position asked for or, beyond it, on the start of the third last segment; it fails, without moving, exactly when closed, dead, unsupported or before the start; after it the next read finds a segment at once |
| LiveTimeshiftStream.FixedBufferSink.Write | src/DispatcharrClient.cpp:99-110 | a chunk is appended up to the capacity, all of it is reported consumed, nothing behind the capacity is touched |
| LiveTimeshiftStream.LiveStream.MergeWindow | src/DispatcharrClient.cpp:2980-3002 | the loop's new state is the merge of the response into the old list |
| LiveTimeshiftStream.LiveStream.RefreshLiveManifest | src/DispatcharrClient.cpp:2920-3006 | a failed request changes nothing and reports whether it was final; a listing is merged |
| LiveTimeshiftStream.LiveStream.TrimToLiveEdge | src/DispatcharrClient.cpp:3150-3165 | the erase and the rebasing loop leave the last three segments, moved to start at 0, and the totals reduced to match |
| LiveTimeshiftStream.LiveStream.OpenLiveTimeshiftStream | src/DispatcharrClient.cpp:3070-3208 | opens if and only if the buffer was started and a listing comes within 30 replies with nothing but passing failures before it, then with that listing trimmed and the position on its oldest byte; otherwise the state is that of a closed stream |
| LiveTimeshiftStream.ThirtyAttempts | src/DispatcharrClient.cpp:3107-3121 | the listing an opening takes is the first one, at most the thirtieth reply, with only passing failures before it |
| LiveTimeshiftStream.LiveStream.CatchUpToTail | src/DispatcharrClient.cpp:3260-3351 | the tail loop's refreshes, its sleeps, its give-up memory and its death on a final failure are those of the specification |
| LiveTimeshiftStream.LiveStream.ReadLiveTimeshiftStream | src/DispatcharrClient.cpp:3210-3470 | new state, result and buffer contents of a read are those of the specification, for every reply, status, body and total; the buffer behind `size` is untouched |
| LiveTimeshiftStream.LiveStream.SeekLiveTimeshiftStream | src/DispatcharrClient.cpp:3472-3567 | new state and result of a seek are those of the specification |
| TailWait.EstimateIsRecentMean | src/DispatcharrClient.cpp:2422-2433 | the estimate is the floored mean of the last at most five durations, 6000 when they add up to nothing positive, at least 1500 |
| LiveTimeshiftStream.WaitBudget | src/DispatcharrClient.cpp:3304-3335 | a tail read never sleeps longer than three estimated segments; one with the full budget that comes away empty sleeps more than that less 250 milliseconds, a seek probe not at all |
| LiveTimeshiftStream.SeekSetsTheBudget | src/DispatcharrClient.cpp:3285-3302 | after any seek of an open stream, failed or not, a tail read within 800 milliseconds of it at a position no short wait was given up at has one attempt, any other one more than the quarter seconds in three estimated segments |
| RecordingStream.WaitBudget | src/DispatcharrClient.cpp:2479-2494 | the same of a recording's tail read, while the recording runs |
| RecordingStream.SeekSetsTheBudget | src/DispatcharrClient.cpp:2468-2477 | the same of a recording's seeks |
| LiveTimeshiftStream.ShortWaitNeverRepeats | src/DispatcharrClient.cpp:3286-3340 | after a tail read that had the short budget and returned 0, and any seeks, the next read that is at the tail at the same position waits with the full budget |
| RecordingStream.ShortWaitNeverRepeats | src/DispatcharrClient.cpp:2468-2498 | the same of a recording's tail reads |
| InProgressRecording.ParsePending | src/DispatcharrClient.cpp:2140-2203 | the playlist loop leaves exactly the listed segments from the known count on, with resolved addresses and their durations |
| InProgressRecording.ItemsExactly | src/DispatcharrClient.cpp:2150-2198 | the item at a name line is named there and lasts what the last duration line since the name before it says, 0 without one |
| InProgressRecording.AddressOf | src/DispatcharrClient.cpp:2192-2193 | a line with either scheme in front is its own address, every other one goes behind the base |
| InProgressRecording.ProbeSizes | src/DispatcharrClient.cpp:2212-2226 | batches of sixteen threads finishing in any order, each writing its own slot once, give the sizes of probing one after the other, in as many batches as sixteen at a time take |
| InProgressRecording.FaithfulExactly | src/DispatcharrClient.cpp:2190-2257 | a refresh keeps the list a beginning of the playlist if and only if no probe succeeded after one that failed |
| InProgressRecording.FaithfulRun | src/DispatcharrClient.cpp:2122-2257 | over a whole session with a growing playlist, failed requests among it or not: faithful after every refresh if and only if that held in every refresh |
| InProgressRecording.GapThenTwice | src/DispatcharrClient.cpp:2140-2257 | after a success behind a failure, the next refresh in which no probe fails lists some segment twice |
| InProgressRecording.RefreshesKeepChained | src/DispatcharrClient.cpp:2236-2243 | any run of refreshes only extends the list and keeps it chained, failures included |
| InProgressRecording.FinishedExactly | src/DispatcharrClient.cpp:2267-2272 | the stream counts as finished if and only if the last answered request said so: an earlier word is taken back |
| InProgressRecording.EntryExactly | src/DispatcharrClient.cpp:2286-2302 | after any run of refreshes, failures of every kind included, the entry that outlives the stream is its list without what was listed when the entry was last erased, at unchanged offsets and under the full totals |
| InProgressRecording.InStepExactly | src/DispatcharrClient.cpp:2270-2302 | it equals the stream's segments and totals if and only if no refresh reported the recording finished while something was listed |
| ReopenedRecording.ReopenEqualsNeverClosing | src/DispatcharrClient.cpp:2286-2345 | with growing playlists and successful probes, closing, opening again and refreshing with at least one answer reaches the address space of the uninterrupted session, in every continuation, if and only if no playlist grew after the recording had been taken for finished with something listed |
| ReopenedRecording.BrokenReopening | src/DispatcharrClient.cpp:2289-2301 | otherwise, however it is refreshed, the reopened stream is not chained from 0, and its first read returns 0 though it has bytes, again and again |
| ReopenedRecording.OneFailedLookup | src/DispatcharrClient.cpp:2270-2301 | two segments of ten bytes, one lookup that fails: closed right after it nothing is lost, one refresh later the entry is the second segment alone, at offset 10 of 20 |
| ReopenedRecording.HoleExactly | src/DispatcharrClient.cpp:2286-2302 | something is missing from the entry and something left if and only if a playlist grew after such a report |
| RecordingStream.ServesSlice | src/DispatcharrClient.cpp:2514-2611 | a read below the total returns the next min(size, rest of the segment) > 0 bytes of the joined bodies, or fails without moving, and fails only if a body could not be fetched |
| RecordingStream.HeldBodyExactly | src/DispatcharrClient.cpp:2533-2600 | a read fails if and only if its segment's body is not held and cannot be fetched, and otherwise leaves that body held |
| RecordingStream.ReadSizesDoNotMatter | src/DispatcharrClient.cpp:2514-2611 | for every series of positive read sizes the results join up to one slice from the starting position, each read making progress |
| RecordingStream.BodySizeExactly | src/DispatcharrClient.cpp:2602-2611 | reads from a freshly fetched body all make progress and stay in their segment if and only if the body has the probed size |
| RecordingStream.ReadReturnsSlice | src/DispatcharrClient.cpp:2451-2611 | every read, waiting or not: a slice at the position of the joined bodies; 0 only at the end of what is known; -1 without moving; the list only grows |
| RecordingStream.TailReadWaitsExactly | src/DispatcharrClient.cpp:2456-2512 | a read at the tail ends its wait at the first reply that brings something to its position or ends the recording, or when the budget is used; with nothing there it returns 0, changing only what the replies changed |
| RecordingStream.RefreshKeepsSound | src/DispatcharrClient.cpp:2093-2323 | a refresh with true probes keeps sizes true and the held body the one it was fetched for |
| RecordingSession.SeekKeepsSound | src/DispatcharrClient.cpp:2613-2678 | so does a seek, with or without its refresh |
| RecordingSession.EveryByteIsRight | src/DispatcharrClient.cpp:2325-2678 | over whole sessions of reads, seeks, waits, refreshes and failures, from the opening on: everything any read returned is the slice at its read position of the joined true bodies of the listed segments, and the list only grows |
| RecordingStream.SeekThenReadNeedsNoWait | src/DispatcharrClient.cpp:2613-2678 | a seek lands where asked or, beyond it, on the start of the last segment; it fails, without moving, exactly when closed, unsupported or before the start; after it the next read needs no wait |
| RecordingStream.RecordingPlayer.MergeProbed | src/DispatcharrClient.cpp:2229-2257 | the loop appends the pending segments that could be sized, and touches no cache |
| RecordingStream.RecordingPlayer.RefreshManifest | src/DispatcharrClient.cpp:2093-2323 | a refresh changes list, finished flag and this recording's cache entry as specified, and no other recording's entry |
| RecordingStream.RecordingPlayer.OpenInProgressRecording | src/DispatcharrClient.cpp:2325-2398 | opening starts from the cached entry and succeeds if and only if within 90 answered requests there is a segment or the recording is over, then with the state of the first such moment; otherwise the stream is closed; other recordings' cache entries stay |
| RecordingStream.NinetyAttempts | src/DispatcharrClient.cpp:2362-2388 | an opening takes the first of at most ninety answered requests after which there is a segment or the recording is over |
| RecordingStream.RecordingPlayer.CatchUpToTail | src/DispatcharrClient.cpp:2456-2498 | the tail loop stops on new data, on the end of the recording or when the budget is used, and sleeps, as specified |
| RecordingStream.RecordingPlayer.ReadInProgressRecording | src/DispatcharrClient.cpp:2451-2611 | new state, result and buffer contents of a read are those of the specification, and the rest of the buffer is untouched |
| RecordingStream.RecordingPlayer.SeekInProgressRecording | src/DispatcharrClient.cpp:2613-2678 | new state and result of a seek are those of the specification |
| BufferLifecycle.LifecycleInvariant | dispatcharr-plugin/timeshift_buffer/plugin.py:1656-1735 | in every state of every run: viewers without duplicates, heartbeats for exactly the viewers, none newer than the buffer's own, never more buffers than allowed, and never two running encoders for one channel |
| BufferLifecycle.StepKeepsInv | dispatcharr-plugin/timeshift_buffer/plugin.py:1637-1862 | every action keeps that invariant |
| BufferLifecycle.PruneIs | dispatcharr-plugin/timeshift_buffer/plugin.py:1224-1252 | pruning leaves exactly the viewers heard from in time, with their heartbeats |
| BufferLifecycle.StartExactly | dispatcharr-plugin/timeshift_buffer/plugin.py:1656-1735 | a start reattaches if and only if the recorded process identifier is in use, is refused for want of room if and only if it is not and the other buffers fill the limit; where it succeeds its viewer is registered as heard from now, the channel has its own encoder if and only if it was started or had it before, and no other channel or viewer is affected |
| BufferLifecycle.FirstViewers | dispatcharr-plugin/timeshift_buffer/plugin.py:1705-1735 | a new buffer was heard from now and lists exactly the viewer that was named, who was heard from now |
| BufferLifecycle.TakenForAliveExactly | dispatcharr-plugin/timeshift_buffer/plugin.py:767-786 | an identifier in use is not the channel's own encoder if and only if it is that of another tracked channel |
| BufferLifecycle.ReusedPid | dispatcharr-plugin/timeshift_buffer/plugin.py:1669-1703 | a run in which a start is answered as reattached to what is another channel's encoder, which a stop then ends |
| BufferLifecycle.SignOfLifeProtects | dispatcharr-plugin/timeshift_buffer/plugin.py:280-293 | after a start, heartbeat, fetch or manifest, and until the timeout has passed, no run of starts, heartbeats, fetches, manifests, reaper passes and stops of others on any channels takes the channel's buffer or encoder, nor drops the registered viewer that gave the sign, if and only if no other buffer records the same process identifier |
| BufferLifecycle.StopTearsDownExactly | dispatcharr-plugin/timeshift_buffer/plugin.py:1763-1788 | a stop naming its viewer takes the buffer down if and only if no other registered viewer was heard from in time; otherwise exactly the timely others remain |
| BufferLifecycle.AnonymousStop | dispatcharr-plugin/timeshift_buffer/plugin.py:1745-1788 | a stop that names nobody takes the buffer and its encoder down at once, and nothing else |
| BufferLifecycle.ManifestExactly | dispatcharr-plugin/timeshift_buffer/plugin.py:1815-1850 | a manifest request removes its own channel's buffer if and only if there is no playlist and its process is gone, moves its heartbeat if and only if a manifest came out, and touches no other buffer or process |
| BufferLifecycle.ReaperExactly | dispatcharr-plugin/timeshift_buffer/plugin.py:1282-1296 | after one pass, in any order, a buffer is left if and only if it was heard from in time, with exactly its timely viewers |
| BufferLifecycle.AttentiveViewerKeepsWatching | dispatcharr-plugin/timeshift_buffer/plugin.py:1282-1296 | one step that is not this viewer's own stop, an anonymous stop or a failure of the encoder leaves a viewer heard from in time registered |
| BufferLifecycle.OthersCannotStopIt | dispatcharr-plugin/timeshift_buffer/plugin.py:1763-1788 | so does every run of such steps by others |
| BufferLifecycle.AbandonedIsReaped | dispatcharr-plugin/timeshift_buffer/plugin.py:1282-1296 | a buffer nobody has asked about for the timeout does not survive the next reaper pass, whatever happened on other channels |
| BufferLifecycle.TimeshiftPlugin.Start | dispatcharr-plugin/timeshift_buffer/plugin.py:1637-1735 | new tracked state and outcome: dead buffers are replaced, live ones reattached to, the limit and a failed spawn refuse |
| BufferLifecycle.TimeshiftPlugin.Stop | dispatcharr-plugin/timeshift_buffer/plugin.py:1737-1788 | new tracked state of a stop |
| BufferLifecycle.TimeshiftPlugin.Beat | dispatcharr-plugin/timeshift_buffer/plugin.py:1790-1813 | a heartbeat registers nobody: viewers and processes stay, the channel counts as heard from now, a registered viewer that is named too, and nothing else changes |
| BufferLifecycle.TimeshiftPlugin.GetManifest | dispatcharr-plugin/timeshift_buffer/plugin.py:1815-1850 | a dead encoder without a playlist is fatal and torn down; a manifest counts as a heartbeat, a failure does not |
| ManifestRequests.ReplyFitsBooking | dispatcharr-plugin/timeshift_buffer/plugin.py:1823-1850 | the manifest's answer and the bookkeeping of the same request fit: final if and only if the buffer is torn down, a heartbeat for a manifest, nothing changed for a failure that is not final |
| BufferLifecycle.TimeshiftPlugin.PruneStaleViewers | dispatcharr-plugin/timeshift_buffer/plugin.py:1224-1252 | the pruned state, and whether anything was pruned |
| BufferLifecycle.TimeshiftPlugin.ReaperTick | dispatcharr-plugin/timeshift_buffer/plugin.py:1282-1296 | one pass over the buffers in the given order |
| WebSocketFrames.ParseInvertsEncode | src/WebSocketClient.cpp:360-418 | a frame encoded with any mask, length form and reserved bits, followed by anything, parses to that frame and the rest, unless the size cap stops it |
| WebSocketFrames.ReceiveDecodesFrames | src/WebSocketClient.cpp:353-449 | on the wire image of any frames the receive loop does what the loop on the frames does and leaves the stream exactly at the next frame |
| WebSocketFrames.DeliversFirstTextExactly | src/WebSocketClient.cpp:419-447 | on every well-formed frame sequence within the cap, close frames included, it delivers the first text message before the close at its own place if and only if no fragmented binary message is completed before it |
| WebSocketFrames.EveryPingIsAnswered | src/WebSocketClient.cpp:421-424 | the frames sent while a message is received are the pongs of the pings among its frames, in order |
| WebSocketFrames.PongEchoes | src/WebSocketClient.cpp:318-343 | a pong decodes back to the ping's payload if and only if that has at most 65535 bytes |
| WebSocketFrames.XorIsExclusiveOr | src/WebSocketClient.cpp:339-340 | bit by bit the masking operation is exclusive or |
| WebSocketFrames.PongIsMasked | src/WebSocketClient.cpp:318-343 | a pong of up to 65535 bytes, byte by byte: its head, its length, the key, and each payload byte with the bits of the key byte of its place modulo 4 flipped |
| WebSocketFrames.StandardExamples | src/WebSocketClient.cpp:353-449 | the examples of section 5.7 of RFC 6455, as sent by a server: one frame, two fragments, a ping that is answered |
| WebSocketFrames.CapAndClose | src/WebSocketClient.cpp:345-397 | the cap is 10 MiB of one payload and what was collected before it together, for each form of length; the close frame's six bytes |
| WebSocketTimeouts.TimeoutIsHarmlessExactly | src/WebSocketClient.cpp:353-449 | after a call that ran out of bytes the next one shows (code, message, frames sent, bytes left) with every continuation what one call would have shown with everything, if and only if the bytes so far were whole frames and less than a header, with no text bytes collected |
| WebSocketTimeouts.CutPoint | src/WebSocketClient.cpp:360-418 | whatever a call that ran out of bytes had got is the wire image of whole frames and a rest that is too short for one |
| WebSocketTimeouts.GotIsEncoded | src/WebSocketClient.cpp:360-418 | every frame the receiver accepts is the encoding of a frame, so that the converse of ParseInvertsEncode holds |
| WebSocketTimeouts.CutPongMayGoUnnoticed | src/WebSocketClient.cpp:410-412 | a pong cut short where it looks like a shorter one is made up for by any next byte |
| WebSocketFrames.TimeoutBetweenMessagesIsHarmless | src/WebSocketClient.cpp:360-364 | running out of bytes between frames drops none of them: the loop, given what was left, what it had collected and what came later, continues as if it all had been there |
| WebSocketTimeouts.TimeoutInsideFrameLosesIt | src/WebSocketClient.cpp:410-412 | a call that gets the header and part of the payload of a one-frame text, with any mask and form of length, loses it: however the rest and what is sent later arrives, no later call of any number delivers it in its place |
| WebSocketClient.WebSocketClient.FillBuffer | src/WebSocketClient.cpp:157-198 | one piece moves into the buffer, nothing is lost or reordered |
| WebSocketClient.WebSocketClient.ReadExact | src/WebSocketClient.cpp:200-218 | for every cutting of the stream: exactly the next bytes or none, the rest stays pending, and after compaction consumed bytes make up at most half of the buffer |
| WebSocketClient.WebSocketClient.ReadFrame | src/WebSocketClient.cpp:360-418 | one frame off the pending bytes as the byte-level parse has it |
| WebSocketClient.WebSocketClient.ReceiveTextMessage | src/WebSocketClient.cpp:353-449 | message, result, frames sent and bytes left depend only on the bytes, not on how they were cut into pieces |
| WebSocketClient.WebSocketClient.SendPong | src/WebSocketClient.cpp:318-343 | exactly one frame is sent, a masked pong |
| WebSocketClient.MessageAfterMessage | src/WebSocketClient.cpp:353-449 | frames that complete a text are delivered by one call, and the frames behind them are left whole for the next |
| Gregorian.TimegmAfterGmtime | src/TimeUtil.h:16-33 | for every timestamp, broken down and put together again, nothing changes, and the broken-down time is one the calendar has |
| Gregorian.GmtimeAfterTimegm | src/TimeUtil.h:16-33 | and the other way round for every calendar time |
| Gregorian.MatchesPosix | src/TimeUtil.h:16-24 | from 1970 on the timestamp is the one of the formula in section 4.16 of POSIX.1-2017 XBD |
| Gregorian.WeekIsAnchored | src/TimeUtil.h:25-33 | 1 January 1970 was a Thursday, and the weekday goes round from each day to the next |
| Gregorian.MonthsAreAsKnown | src/TimeUtil.h:16-33 | the lengths of the months and the leap years |
| DaylightSaving.NthWeekdayExactly | src/DispatcharrClient.cpp:277-288 | the result is the one day that is that weekday and the nth of them in its month |
| DaylightSaving.LastWeekdayExactly | src/DispatcharrClient.cpp:293-312 | the result is the one day of the month that is that weekday with none after it |
| DaylightSaving.UsDaylightLength | src/DispatcharrClient.cpp:322-345 | daylight time lasts exactly 238 days less one hour, in every year and zone |
| DaylightSaving.UsTransitions | src/DispatcharrClient.cpp:322-344 | both transitions by a year formula that knows no weekday |
| DaylightSaving.UtcYearIsEnough | src/DispatcharrClient.cpp:314-345 | taking the UTC year of the instant, it is daylight time if and only if the instant lies in some year's interval, for every offset up to a day |
| DaylightSaving.LocalYearGivesTheSame | src/DispatcharrClient.cpp:314-345 | the local standard year gives the same answer |
| DaylightSaving.EuDaylightLength | src/DispatcharrClient.cpp:350-371 | summer time lasts 210 days when the last Sunday of March is the 29th or later, 217 otherwise |
| DaylightSaving.EuTransitions | src/DispatcharrClient.cpp:350-371 | both transitions by a year formula that knows no weekday |
| DaylightSaving.EuUtcYearIsEnough | src/DispatcharrClient.cpp:350-371 | it is summer time if and only if the instant lies in some year's interval |
| CivilText.IsoRoundTrip | src/DispatcharrClient.cpp:180-213 | reading back a printed timestamp gives it again, for every instant of the years 1000 to 9999 |
| IsoText.IsoRoundTripExactly | src/DispatcharrClient.cpp:180-213 | for every instant: it does if and only if the year prints as four characters, or as three with no field of two digits behind it |
| CivilText.IsoFormExactly | src/DispatcharrClient.cpp:180-187 | the printed form of the years 1000 to 9999: separators, digits and which field stands where |
| CivilText.IsoFieldsExactly | src/DispatcharrClient.cpp:193-213 | which digits are read as which field; a text of fewer than 19 characters is 0 |
| CivilText.StoiExactly | src/DispatcharrClient.cpp:201-206 | a field may have any of the six white-space characters and one sign before its digits and anything behind them; without digits it is none |
| CivilText.XmlTvRoundTrip | src/XmlTvParser.cpp:17-55 | the instant is recovered from its guide form for every offset of up to 99:59 either way |
| CivilText.XmlTvExactly | src/XmlTvParser.cpp:17-55 | fourteen digits are the six fields, a sign and four digits behind a space are taken off as hours and minutes, any other sign is ignored, and a shorter text is 0 |
| CivilText.XmlTvMalformed | src/XmlTvParser.cpp:32-55 | a field that is no number gives 0, an offset that is none or too short is ignored |
| DirectorySweep.OnePassExactly | dispatcharr-plugin/recording_edl/plugin.py:253-279 | one deepest-first pass, ties in any order, removes exactly the non-dotted directories below the root under which there was no file, no dotted directory and nothing that cannot be removed |
| DirectorySweep.SecondPassRemovesNothing | dispatcharr-plugin/recording_edl/plugin.py:240-279 | a second pass finds nothing to remove |
| DirectorySweep.ScrubExactly | dispatcharr-plugin/recording_edl/plugin.py:295-327 | in whatever order files are visited, what goes are exactly the sidecars that were orphans at the start |
| DirectorySweep.StemExactly | dispatcharr-plugin/recording_edl/plugin.py:314-319 | the stem of a name with something on both sides of its last dot is what is before the dot; any other name is its own stem |
| DirectorySweep.SidecarsExactly | dispatcharr-plugin/recording_edl/plugin.py:144-153 | the two endings that make a sidecar, and the recording name each leaves |
| DirectorySweep.KeptBesideRecording | dispatcharr-plugin/recording_edl/plugin.py:314-319 | a sidecar beside a recording of its base with any extension is kept, in every order of visits |
| DirectorySweep.GoneWithoutRecording | dispatcharr-plugin/recording_edl/plugin.py:314-327 | one with no such file beside it goes, unless it cannot be removed or a name on its path is dotted |
| DirectorySweep.OthersStay | dispatcharr-plugin/recording_edl/plugin.py:299-306 | whatever is not a sidecar, lies under a dotted name, cannot be removed or is not visited stays |
| DirectorySweep.SweepTwiceIsOnce | dispatcharr-plugin/recording_edl/plugin.py:295-331 | scrub and sweep of one root, repeated, change nothing more, with or without errors |
| DirectorySweep.RootsAreIndependent | dispatcharr-plugin/recording_edl/plugin.py:291-331 | what lies under a scan root is what its own sweep makes of it, whatever was done at the other roots before |
| DirectorySweep.ScrubTwiceIsOnce | dispatcharr-plugin/recording_edl/plugin.py:284-335 | the whole action over the deduplicated scan roots, repeated, changes nothing more |
| DirectorySweep.ScanRootsExactly | dispatcharr-plugin/recording_edl/plugin.py:229-237 | kept are exactly the roots with no other above them: none covers another, together they cover all |
| DirectorySweep.DedupRoots | dispatcharr-plugin/recording_edl/plugin.py:233-237 | the loop keeps a root unless it is, or lies under, one already kept |
| DirectorySweep.ScanRoot.PruneEmptyDirectories | dispatcharr-plugin/recording_edl/plugin.py:240-281 | the loop's new tree is that of the pass, and the reported directories are exactly those that are gone |
| DirectorySweep.ScanRoot.ScrubSidecars | dispatcharr-plugin/recording_edl/plugin.py:295-327 | the loop's new files are those of the scrub, and the reported files are exactly those that are gone |

## Left out

- LiveFidelity.EveryByteIsRight: a read of the session's live instance is taken to find its segment fewer than the ring size behind the writer; what a later read gets instead is in LiveFidelity.ReadExactly. A request is answered in one step, so a file overwritten while it is being sent is not modelled, and the runs are those of one channel.
- InProgressRecording.FaithfulRun: playlists are taken to grow at their end only and never to name a segment twice; one URL probed twice within one refresh is taken to give one result.
- ReopenedRecording.ReopenEqualsNeverClosing: playlists are taken to grow at their end only and every probe to tell one size for a URL; with probes that fail, InProgressRecording.EntryExactly still says what the entry is.
- RecordingStream.ReadReturnsSlice: bodies are taken to have the probed size; RecordingStream.BodySizeExactly shows why.
- BufferLifecycle.LifecycleInvariant: each action is one step with one clock reading; the finer interleavings of the separate reads and writes of the shared state are not modelled, nor its expiry.
- IsoText.IsoRoundTripExactly: the printing function is taken to pad no year and to print a negative one with its sign.
- RecordingSession.EveryByteIsRight: probes that succeed are taken to tell the body's size; RecordingStream.BodySizeExactly shows why. An entry that no longer lists everything from byte 0 is the subject of ReopenedRecording.BrokenReopening.
- Integer widths: byte counts, positions, timestamps and sequence numbers are unbounded; the pong's 16-bit length is not.
- HTTP transport, JSON decoding, log-in, token refresh, API-key renewal and its one repeated request: a request is a success with a result or a failure.
- Splitting playlist text into lines and numbers: a line arrives classified, its duration already in integer milliseconds; a duration that is no number counts as 0.
- Spelling of a Range header: it arrives classified as absent or unusable, a suffix, open or bounded.
- The refresh throttle of half a second and the heartbeat a read sends every ten: neither changes what a read returns.
- Encoder internals beyond the ring, the playlist and their order; that a playlist's stamp differs after every change, and that tokens never repeat, are assumptions of the run.
- Waiting for a process to end, signals, and process identifiers taken over by foreign programs.
- Stopping all buffers at once and the scan for storage directories without a tracked buffer.
- The WebSocket handshake, sends that fail, and TLS; the random masks are a parameter.
- The table of zone names and their standard offsets.
- Deriving scan roots from the recording templates, and symbolic links. The loop over the roots is a function, only the work under one root is also given as imperative code.
- Reading completed recordings: a simpler form of both streams.
- The player's callbacks, settings, timers, the guide, and the user interface of the plugins.
