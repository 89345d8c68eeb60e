# OpenClaw schedulers and transformers, verified

A Dafny model of the hand-written schedulers and of the text and tree transformers of the
OpenClaw gateway, with proofs of what they promise.

The schedulers are modelled twice. A protocol module gives the transition system: a state, the
events that can happen to it, and the state after each event. One event is the code between two
awaits; a promise is the index of the chained task, send or call that it stands for; histories of what
arrived, what was sent and what was published are part of the state, so that the theorems can
speak about whole runs. A class then holds the fields of the source and updates them in place, and
each of its methods is proved to take exactly one step of the protocol and to stay in a state that a
run reaches, so that the theorems hold of the object. The theorems are about all
runs: any number of keys, items, updates, flushes, adapter failures and timers, in any order.

The transformers are methods with the loops of the source, proved against recursive functions, and
the theorems are about those functions. Text is a sequence of UTF-16 code units.

| files | what they model |
|---|---|
| `DebounceProtocol`, `DebounceInvariant`, `DebounceTheorems`, `DebounceBatches`, `InboundDebouncer` | the keyed inbound debouncer: per-key buffers, timers, promise chains with reserved slots |
| `DraftStreamProtocol`, `DraftStreamTheorems`, `DraftStreamDrain`, `DraftStreamSteps`, `DraftStream` | the throttled draft stream loop and its finalizable controls |
| `StatusReactionProtocol`, `StatusReactionTheorems`, `StatusReactionPhases`, `StatusReactions` | the status reaction controller with its serialized queue and timers |
| `Fences`, `MarkdownPieces`, `MarkdownChunker`, `MarkdownTheorems`, `MarkdownShape`, `MarkdownReparse` | fence spans and the fence-aware Markdown chunker |
| `ConfigTree`, `ConfigPathSyntax` | reading, writing and removing values of a config tree, and the syntax of paths |
| `CommandArgs`, `RunState`, `Utf16` | positional command arguments, the run counter with its heartbeat, the surrogate-safe slicer |
| `JsText`, `Optional` | JavaScript strings, white space and trimming; optional values |

`dafny verify dfyconfig.toml` checks the whole project.

Some points where the code does less than its names and comments suggest. For each the model has a
run or an input that shows it, and a lemma that says exactly when it happens:

- The limit of `chunkMarkdownText` is not a bound on chunk length (`MarkdownTheorems.ChunkLengths`,
  `LimitIsNotAlwaysKept`).
- A chunk may start one unit inside the indented opening line of the fence that it closes
  (`MarkdownTheorems.ClosedFencesAreOpen`, `IndentationCanBeLost`).
- A chunk broken off in the middle of a line may read differently by itself than in the text
  (`MarkdownReparse.LineChunkIsClosedIff`, `ChunkIsClosedIff`, `MidLineBreakCanOpenFence`).
- `maxTrackedKeys` is not a bound on the tracked keys, since the saturated path still adds a chain
  (`DebounceTheorems.LimitIsExceededIff`, `LimitCanBeExceeded`).
- A flush that `enqueue` starts without a chain may run beside a later one of its key
  (`DebounceTheorems.OverlapBeginsIff`, `DirectFlushCanOverlap`).
- A refused send puts its text back over a newer one (`DraftStreamTheorems.TextSurvivesIff`,
  `RefusalKeepsNewestIff`, `RefusalLosesNewerText`).
- A reset of the throttle window drops the timer of pending text (`DraftStreamDrain.WatchedIff`,
  `ResetStrandsText`).
- `clear` forgets the emoji that an adapter without `removeReaction` still shows
  (`StatusReactionTheorems.ShowsTheLatestEmoji`, `ClearCanLeaveTheEmoji`).

A fence line with a carriage return, U+2028 or U+2029 behind its marks is none, because the regular
expression of the source does not match those units.

Assumptions shared by the scheduler models: callbacks do not call back into the object that calls
them synchronously, and the settlement of a promise, its `finally` and the continuation of the
function that awaits it directly are one step. In the draft loop that means that a send settles,
`inFlightPromise` is cleared and the flush that issued the send continues before anything else
happens; other flushes awaiting the same send resume later, in any order.

## Model

| member | source | states |
|---|---|---|
| `DebounceTheorems.DeliveredInArrivalOrder` | openclaw-zero-token/auto-reply/inbound-debounce.ts:84-232 | On every run and for every key, the items enqueued so far are the items of the batches whose flush has started followed by what the unstarted tasks of the key hold, in chain order: delivery is exactly once and starts in arrival order on the buffered, forced, chained, direct and saturated paths. |
| `DebounceTheorems.EverythingDrains` | openclaw-zero-token/auto-reply/inbound-debounce.ts:71-156 | From every reachable state, if no items arrive, the timer, release, start, settle and drop steps are bounded in number by a measure of all chained tasks and running direct flushes, whatever the flushes report; no step is left exactly when every task is done and dropped and no direct flush runs, and then no chain or buffer is left and everything that arrived was flushed. |
| `DebounceTheorems.Progress` | openclaw-zero-token/auto-reply/inbound-debounce.ts:97-138 | While any task is unfinished or still registered, or a direct flush runs, the runtime has a step it can take: no reserved slot waits forever. |
| `DebounceTheorems.InternalStepsDecrease` | openclaw-zero-token/auto-reply/inbound-debounce.ts:71-156 | Every step the runtime takes by itself makes the measure smaller, also when a flush fails. |
| `DebounceTheorems.OverlapBeginsIff` | openclaw-zero-token/auto-reply/inbound-debounce.ts:84-95 | Two flushes of one key begin to run at the same time exactly when a released task of the key runs, or an undebounced item without buffer or chain comes, while a direct flush of the key is still running: chained ones never meet each other, and a direct one never meets a chained one. |
| `DebounceTheorems.StartsIff` | openclaw-zero-token/auto-reply/inbound-debounce.ts:165-232 | A step hands a batch of a key to `onFlush` exactly if a released task of that key runs at the head of its chain, or an item comes that has no key, or one that is not debounced for a key with neither buffer nor chain. |
| `DebounceTheorems.DirectFlushCanOverlap` | openclaw-zero-token/auto-reply/inbound-debounce.ts:165-232 | A run on which an item flushed directly is still being flushed when the next, buffered one of its key is flushed too. |
| `DebounceTheorems.ChainedFlushesNeverOverlap` | openclaw-zero-token/auto-reply/inbound-debounce.ts:84-95 | On every run, when a task of a key has started, all earlier tasks of that key are done. |
| `DebounceTheorems.MappedBufferHoldsTheTail` | openclaw-zero-token/auto-reply/inbound-debounce.ts:158-232 | On every run, a buffer in the map is armed, its key has a chain, and its closed and unstarted slot is the tail of that chain. |
| `DebounceTheorems.FlushedBufferIsFrozen` | openclaw-zero-token/auto-reply/inbound-debounce.ts:126-138 | A buffer that has been released keeps its contents in every continuation of the run. |
| `DebounceTheorems.DebouncingRespectsTheLimit` | openclaw-zero-token/auto-reply/inbound-debounce.ts:158-163 | A step that starts to debounce a key that was not tracked leaves at most `maxTrackedKeys` keys tracked. |
| `DebounceTheorems.LimitIsExceededIff` | openclaw-zero-token/auto-reply/inbound-debounce.ts:158-213 | The number of tracked keys goes above `maxTrackedKeys` exactly by enqueueing an item that may be debounced for a new key when the limit has been reached: the saturated path still adds a chain. |
| `DebounceTheorems.LimitCanBeExceeded` | openclaw-zero-token/auto-reply/inbound-debounce.ts:206-213 | With a limit of one key, two debounced items for any two different, non-empty keys leave both keys tracked. |
| `DebounceTheorems.NextKeepsOrder` | openclaw-zero-token/auto-reply/inbound-debounce.ts:165-232 | Every step keeps, for every key, the equation between what arrived, what was flushed and what is owed. |
| `DebounceTheorems.AcceptAccount` | openclaw-zero-token/auto-reply/inbound-debounce.ts:165-232 | Each of the six paths of `enqueue` adds the item behind all that its key was flushed and is owed, and changes no other key. |
| `DebounceInvariant.NextKeepsInv` | openclaw-zero-token/auto-reply/inbound-debounce.ts:84-232 | Every step keeps the invariant: chains are linked per key, tasks of a key are serial, chain entries are the newest tasks, mapped buffers own the tails, slots and gates agree with their buffers. |
| `InboundDebouncers.InboundDebouncer.constructor` | openclaw-zero-token/auto-reply/inbound-debounce.ts:57-61 | A new debouncer is empty and sound; its limit is the one given, 1 for a lower one, or 2048 for none. |
| `InboundDebouncers.InboundDebouncer.Enqueue` | openclaw-zero-token/auto-reply/inbound-debounce.ts:165-232 | Takes exactly the enqueue step of the protocol and keeps the object sound, so what arrived for each key stays what was flushed followed by what is owed. |
| `InboundDebouncers.InboundDebouncer.Accept` | openclaw-zero-token/auto-reply/inbound-debounce.ts:170-232 | The branches of `enqueue` leave the fields as the protocol says: which map entries, buffers, slots and chain entries exist afterwards. |
| `InboundDebouncers.InboundDebouncer.EnqueueKeyTask` | openclaw-zero-token/auto-reply/inbound-debounce.ts:84-95 | The new task follows the newest one of its key and becomes the chain entry. |
| `InboundDebouncers.InboundDebouncer.ReleaseBuffer` | openclaw-zero-token/auto-reply/inbound-debounce.ts:118-124 | Releases the slot once and leaves everything else as it was. |
| `InboundDebouncers.InboundDebouncer.FlushBuffer` | openclaw-zero-token/auto-reply/inbound-debounce.ts:126-138 | Takes the buffer out of the map if it is the one there, disarms it and releases its slot. |
| `InboundDebouncers.InboundDebouncer.FlushKey` | openclaw-zero-token/auto-reply/inbound-debounce.ts:140-146 | Flushes the mapped buffer of the key, if any, and keeps the object sound. |
| `InboundDebouncers.InboundDebouncer.CanTrackKey` | openclaw-zero-token/auto-reply/inbound-debounce.ts:158-163 | True exactly for a tracked key or if fewer than `maxTrackedKeys` keys are tracked. |
| `InboundDebouncers.InboundDebouncer.TimerFires` | openclaw-zero-token/auto-reply/inbound-debounce.ts:148-156 | The timer callback flushes its buffer and keeps the object sound. |
| `InboundDebouncers.InboundDebouncer.SlotReleases` | openclaw-zero-token/auto-reply/inbound-debounce.ts:178-182 | The reserved immediate slot opens when the buffer flushed before it has settled. |
| `InboundDebouncers.InboundDebouncer.TaskStarts` | openclaw-zero-token/auto-reply/inbound-debounce.ts:104-107 | A chain head with an open slot starts its flush with all items its buffer holds by then, and keeps the object sound. |
| `InboundDebouncers.InboundDebouncer.TaskSettles` | openclaw-zero-token/auto-reply/inbound-debounce.ts:71-82 | A flush settles its task whether it succeeds or fails. |
| `InboundDebouncers.InboundDebouncer.DirectSettles` | openclaw-zero-token/auto-reply/inbound-debounce.ts:71-82 | A direct flush ends whether it succeeds or fails, and keeps the object sound. |
| `InboundDebouncers.InboundDebouncer.ChainDrops` | openclaw-zero-token/auto-reply/inbound-debounce.ts:89-93 | A settled task removes the chain entry only if the entry is still its own. |
| `DraftStreamTheorems.OneSendAtATime` | openclaw-zero-token/channels/draft-stream-loop.ts:20-52 | However many flushes race, at most one send is in flight, and it is the newest. |
| `DraftStreamTheorems.SendsFollowUpdates` | openclaw-zero-token/channels/draft-stream-loop.ts:30-50 | Every send carries the text of an accepted update; attempted sends have nondecreasing update numbers and repeat one only after it was refused, so successful sends have strictly increasing ones. |
| `DraftStreamTheorems.NothingIsSentAfterTake` | openclaw-zero-token/channels/draft-stream-controls.ts:57-97 | Once `takeMessageIdAfterStop` has returned, no continuation of the run sends anything or records another id, whatever flushes are suspended and timers armed. |
| `DraftStreamTheorems.NoSendStartsAfterStop` | openclaw-zero-token/channels/draft-stream-loop.ts:25-29 | Once the stream is stopped, no continuation of the run starts a send. |
| `DraftStreamTheorems.StopDeliversTheLastUpdate` | openclaw-zero-token/channels/draft-stream-controls.ts:45-55 | On every run on which the stream is not stopped, when a finalizing `stop` has returned other than from a refused send, nothing is in flight or pending, later updates change nothing, and every text that is not blank was delivered exactly if no step of the run lost it: by a newer update or an older refused text in its place, a failed send, or a reset. |
| `DraftStreamTheorems.TextSurvivesIff` | openclaw-zero-token/channels/draft-stream-loop.ts:20-90 | On every run, a text that is not blank is pending, on its way or delivered at the end exactly if no step lost it. |
| `DraftStreamTheorems.LostTextIsNeverSent` | openclaw-zero-token/channels/draft-stream-loop.ts:20-90 | A lost text is never pending, sent or delivered again in any continuation. |
| `DraftStreamTheorems.AliveIffDeliverable` | openclaw-zero-token/channels/draft-stream-loop.ts:20-52 | While the stream is not stopped, a text can still be delivered by some continuation exactly if it is pending, on its way or delivered. |
| `DraftStreamTheorems.SmoothRunsLoseNothing` | openclaw-zero-token/channels/draft-stream-controls.ts:45-55 | On runs without refusals, failures, resets and clearing no step loses the newest text and no stop returns from a refusal, so there the stop has delivered the last update. |
| `DraftStreamTheorems.QuietStreamStaysQuiet` | openclaw-zero-token/channels/draft-stream-controls.ts:45-50 | A finalized stream with nothing pending or in flight sends nothing more on any continuation of updates through the controls, flushes, settlements, stops, resets and takes. |
| `DraftStreamTheorems.RefusalKeepsNewestIff` | openclaw-zero-token/channels/draft-stream-loop.ts:42-46 | A flush that returns from a refused send has not delivered the newest text; some continuation can still deliver it exactly if the refused text is the newest, for a newer one is lost for good. |
| `DraftStreamTheorems.RefusalLosesNewerText` | openclaw-zero-token/channels/draft-stream-loop.ts:42-46 | For any two non-blank texts there is a run on which the older one is refused while the newer one is pending, after which the newer one is neither pending nor sent. |
| `DraftStreamTheorems.NextKeepsInv` | openclaw-zero-token/channels/draft-stream-loop.ts:20-102 | Every step keeps the invariant: one send in flight, sends in update order, genuine texts, waiters that wait for the send in flight, takes that read only when nothing is in flight. |
| `DraftStreamDrain.LastUpdateIsDelivered` | openclaw-zero-token/channels/draft-stream-loop.ts:20-97 | From every state of every run on which the stream is not stopped, once updates stop and sends succeed, the timer, settle and resume steps are bounded by a measure; when none is left, no flush is suspended, and a text that is not blank was delivered exactly if no step lost it and it was not left pending unwatched. |
| `DraftStreamDrain.WatchedIff` | openclaw-zero-token/channels/draft-stream-loop.ts:54-97 | Pending text is left with no send in flight, timer or resuming flush exactly by a reset of the throttle window, a refusal or a failure where nothing else was about to flush, and is taken up again exactly by an update, a flush or a stop. |
| `DraftStreamDrain.RunIsWatchedIff` | openclaw-zero-token/channels/draft-stream-loop.ts:54-97 | Whether pending text is watched at the end of a run is told from its steps. |
| `DraftStreamDrain.ResetStrandsText` | openclaw-zero-token/channels/draft-stream-loop.ts:91-97 | For any text that is not blank: an update inside the throttle window followed by a reset of the window leaves it pending with nothing left to send it. |
| `DraftStreamDrain.InternalStepsCost` | openclaw-zero-token/channels/draft-stream-loop.ts:20-52 | Each step the runtime takes by itself lowers the measure, so racing flushes cannot wake each other forever. |
| `DraftStreams.DraftStream.constructor` | openclaw-zero-token/channels/draft-stream-loop.ts:10-18 | A new stream has sent nothing, has nothing pending, and is consistent. |
| `DraftStreams.DraftStream.Update` | openclaw-zero-token/channels/draft-stream-controls.ts:45-50 | Takes the update step: ignored when stopped or final, else the text becomes pending and is flushed or scheduled. |
| `DraftStreams.DraftStream.Accept` | openclaw-zero-token/channels/draft-stream-loop.ts:65-79 | The branches of `update` leave the fields as the protocol says. |
| `DraftStreams.DraftStream.RunFlush` | openclaw-zero-token/channels/draft-stream-loop.ts:25-42 | The loop of `flush` returns, awaits the send in flight, drops blank text or issues the send, as the protocol says. |
| `DraftStreams.DraftStream.Continue` | openclaw-zero-token/channels/draft-stream-loop.ts:42-50 | Behind its send a flush throws, restores the refused text, returns or goes round the loop, as the protocol says. |
| `DraftStreams.DraftStream.SettlePromise` | openclaw-zero-token/channels/draft-stream-loop.ts:36-40 | Clears the in-flight promise if it is still the settled one, and wakes exactly those awaiting it. |
| `DraftStreams.DraftStream.SendSettles` | openclaw-zero-token/channels/draft-stream-loop.ts:36-51 | Settlement, `finally` and the continuation of the issuing flush form one step that keeps the stream consistent. |
| `DraftStreams.DraftStream.Flush` | openclaw-zero-token/channels/draft-stream-loop.ts:20-24 | An explicit flush clears the timer and runs the loop, keeping the stream consistent. |
| `DraftStreams.DraftStream.TimerFires` | openclaw-zero-token/channels/draft-stream-loop.ts:59-61 | The timer callback starts a flush, keeping the stream consistent. |
| `DraftStreams.DraftStream.FlushResumes` | openclaw-zero-token/channels/draft-stream-loop.ts:26-29 | A flush that awaited a resolved send goes back to the loop head. |
| `DraftStreams.DraftStream.Stop` | openclaw-zero-token/channels/draft-stream-controls.ts:52-55 | Marks the stream final and flushes. |
| `DraftStreams.DraftStream.LoopStop` | openclaw-zero-token/channels/draft-stream-loop.ts:81-87 | Drops the pending text and the timer. |
| `DraftStreams.DraftStream.ResetPending` | openclaw-zero-token/channels/draft-stream-loop.ts:88-90 | Drops the pending text only. |
| `DraftStreams.DraftStream.ResetThrottleWindow` | openclaw-zero-token/channels/draft-stream-loop.ts:91-97 | Forgets the last send and drops the timer, keeping the pending text. |
| `DraftStreams.DraftStream.TakeMessageId` | openclaw-zero-token/channels/draft-stream-controls.ts:57-61 | Stops the stream, drops text and timer, and waits for the send in flight, if any. |
| `DraftStreams.DraftStream.TakeResumes` | openclaw-zero-token/channels/draft-stream-controls.ts:93-96 | Returns the recorded id and clears it. |
| `MarkdownTheorems.NothingButSpaceIsLost` | openclaw-zero-token/auto-reply/chunk.ts:326-411 | For every text and limit, the raw slices of the chunks and the gaps between them rebuild the text, every gap is white space only, and so all other characters survive in order. |
| `MarkdownTheorems.BreaksRespectFences` | openclaw-zero-token/auto-reply/chunk.ts:346-409 | If the break of a chunk lies strictly inside a fence, that fence is the only one, the chunk returned ends with its indent and marker on a line of their own, and the next one starts with its opening line; otherwise the chunk is what it reopened and its slice, and the next one starts with its own slice. |
| `MarkdownTheorems.ClosedFencesAreOpen` | openclaw-zero-token/auto-reply/chunk.ts:327-409 | A chunk that starts inside a fence reopens it and no other chunk reopens one; a fence that a chunk closes was reopened by it or begins in it, except that the chunk starts one unit behind the fence exactly if the chunk before was broken at the fence and its line starts with white space. |
| `MarkdownTheorems.IndentationCanBeLost` | openclaw-zero-token/auto-reply/chunk.ts:392-404 | A text whose second chunk, at limit 6, starts one unit inside the fence that it closes. |
| `MarkdownTheorems.ChunkLengths` | openclaw-zero-token/auto-reply/chunk.ts:327-409 | A chunk has at most max(limit, prefix + 1) units, plus a newline and the closing line if it closes a fence; it exceeds the limit exactly when the prefix alone reaches it or it closes a fence that leaves no room for its closing line. |
| `MarkdownTheorems.LimitIsNotAlwaysKept` | openclaw-zero-token/auto-reply/chunk.ts:346-403 | A text of ten units whose first chunk at limit 6 has ten: the limit alone is not a bound. |
| `MarkdownTheorems.ChunksAreRenderings` | openclaw-zero-token/auto-reply/chunk.ts:395-411 | The result has one chunk per piece, in order, each its rendering and none empty. |
| `MarkdownTheorems.SoftBreakIsTheBest` | openclaw-zero-token/auto-reply/chunk.ts:423-440 | If the window holds white space outside parentheses and fences, the chunk ends at the last such newline, else at the last such white space. |
| `MarkdownTheorems.ScanFindsTheLast` | openclaw-zero-token/auto-reply/chunk.ts:442-476 | The scan misses no breakable character: what it reports lies at or behind every one of them. |
| `MarkdownTheorems.FenceBreakLength` | openclaw-zero-token/auto-reply/chunk.ts:346-403 | The break chosen in a fence keeps the chunk within its content limit exactly unless the fence is too cramped for its closing line. |
| `MarkdownReparse.LineChunkIsClosedIff` | openclaw-zero-token/auto-reply/chunk.ts:326-411 | Parsed again by itself, a chunk that starts a line has all its fences closed exactly if its closing line closes what is open where the text is broken off; so always if that is at the start or end of a line, and what closes is then the fence the chunk was broken in. |
| `MarkdownReparse.ChunkIsClosedIff` | openclaw-zero-token/auto-reply/chunk.ts:326-411 | Any chunk, parsed by itself, has all its fences closed exactly if its slice leaves open a fence that its closing line closes, or none if it has no closing line. |
| `MarkdownReparse.ReadsTheSameIff` | openclaw-zero-token/auto-reply/chunk.ts:326-411 | From the end of its first line on, a chunk parsed by itself has the same fences open as the text exactly if it has at that one place. |
| `MarkdownReparse.LineStartReadsTheSame` | openclaw-zero-token/auto-reply/chunk.ts:327-409 | A chunk that starts a line has, parsed by itself, the same fences open as the text all the way. |
| `MarkdownReparse.MidLineBreakCanOpenFence` | openclaw-zero-token/auto-reply/chunk.ts:336-389 | A text without fences whose second chunk, at limit 4, opens one: the break falls in front of backticks in the middle of a line. |
| `MarkdownReparse.FenceAtIsTheOpenOne` | openclaw-zero-token/markdown/fences.ts:9-97 | At the start and the end of every line, the lookup in the spans gives exactly the fence that reading the text up to there leaves open. |
| `MarkdownReparse.NoneOpenIff` | openclaw-zero-token/markdown/fences.ts:9-73 | Reading a text leaves no fence open exactly if every span ends with a line that closes it. |
| `MarkdownChunker.CutChunk` | openclaw-zero-token/auto-reply/chunk.ts:326-411 | One round of the loop puts the next chunk behind those cut so far and leaves the rest of the text to cut, with the fence to reopen. |
| `MarkdownChunker.ChunkMarkdownText` | openclaw-zero-token/auto-reply/chunk.ts:315-413 | The loop terminates on every text and limit and returns the renderings of exactly the specified pieces. |
| `MarkdownChunker.ChooseBreak` | openclaw-zero-token/auto-reply/chunk.ts:336-389 | One round breaks where the specification says and closes the fence that has the break inside, or none. |
| `MarkdownChunker.BreakInsideFence` | openclaw-zero-token/auto-reply/chunk.ts:347-388 | The branch for a hard break in a fence picks the specified break, and its second lookup finds that same fence again. |
| `MarkdownChunker.FenceBreakStaysInside` | openclaw-zero-token/auto-reply/chunk.ts:386-388 | Wherever the break inside a fence is moved, it stays inside that fence. |
| `MarkdownChunker.FindCandidate` | openclaw-zero-token/auto-reply/chunk.ts:360-374 | The backward search finds the last line start inside the fence that leaves room for the closing line, or says that there is none. |
| `MarkdownChunker.SoftBreaksAreSafe` | openclaw-zero-token/auto-reply/chunk.ts:427-439 | A soft break is white space outside every fence. |
| `MarkdownChunker.ScanParenAwareBreakpoints` | openclaw-zero-token/auto-reply/chunk.ts:442-476 | Returns the last newline and the last other white space of the window outside parentheses and fences. |
| `MarkdownChunker.PickSafeBreakIndex` | openclaw-zero-token/auto-reply/chunk.ts:423-440 | Prefers the newline, then the white space, and never the start of the window. |
| `MarkdownChunker.SkipLeadingNewlines` | openclaw-zero-token/auto-reply/chunk.ts:415-421 | Skips exactly the newlines at the given index. |
| `MarkdownChunker.CloseChunk` | openclaw-zero-token/auto-reply/chunk.ts:391-409 | The chunk is the reopening line, the raw slice and the closing line on a line of its own; the next start skips one separator, and newlines only outside a fence. |
| `Fences.SpansAreTheBlocks` | openclaw-zero-token/markdown/fences.ts:9-73 | The spans are the fenced blocks of the text, in order and apart: each starts at a fence line and ends with the first line that closes it or with the text, and every fence line lies in one. |
| `Fences.ParseFenceSpans` | openclaw-zero-token/markdown/fences.ts:9-73 | The scanning loop returns exactly those spans. |
| `Fences.FindFenceSpanAt` | openclaw-zero-token/markdown/fences.ts:75-101 | The binary search finds the span that has the index strictly inside, or none if there is none. |
| `Fences.FenceAtIsUnique` | openclaw-zero-token/markdown/fences.ts:75-97 | In ordered spans at most one has the index inside. |
| `ConfigTree.GetAfterSet` | openclaw-zero-token/cli/config-cli.ts:190-258 | A value that was written is found again at the same path. |
| `ConfigTree.SetKeepsOtherPaths` | openclaw-zero-token/cli/config-cli.ts:216-258 | A write keeps every found path that is incomparable with the written one, array segments being compared as numbers. |
| `ConfigTree.SetThrowsIffBlocked` | openclaw-zero-token/cli/config-cli.ts:216-258 | From an object or array, a write throws exactly when an existing array is met with a segment that is no index; then the tree is unchanged and the two "not an object" errors do not occur. |
| `ConfigTree.SetThroughPrefix` | openclaw-zero-token/cli/config-cli.ts:216-258 | A write through a found prefix is a write below it. |
| `ConfigTree.FreshContainerIsNeutral` | openclaw-zero-token/cli/config-cli.ts:228-241 | Making a container on the way down does not change what the write comes to. |
| `ConfigTree.UnsetIffFound` | openclaw-zero-token/cli/config-cli.ts:190-306 | Removal returns true exactly where reading finds the path, and leaves the tree unchanged when false. |
| `ConfigTree.UnsetShiftsByOne` | openclaw-zero-token/cli/config-cli.ts:260-306 | Removing an element keeps the earlier ones and moves exactly the later ones down by one; removing a key removes that key alone. |
| `ConfigTree.UnsetKeepsOtherPaths` | openclaw-zero-token/cli/config-cli.ts:260-306 | Removal keeps every found path that parts from the removed one above its last step. |
| `ConfigTree.UnsetKeepsSiblings` | openclaw-zero-token/cli/config-cli.ts:297-305 | Removing a key keeps every path, found or not, through the other keys of its object. |
| `ConfigTree.UnsetMovesSiblings` | openclaw-zero-token/cli/config-cli.ts:286-295 | Removing an array element keeps every path through the elements before it and moves every path through those behind it down by one. |
| `ConfigTree.UnsetUndoesSet` | openclaw-zero-token/cli/config-cli.ts:216-306 | Removal undoes a write exactly when the write added an absent key or appended an element under an existing parent. |
| `ConfigTree.UnsetThroughPrefix` | openclaw-zero-token/cli/config-cli.ts:260-306 | A removal through a found prefix is a removal below it. |
| `ConfigTree.ConfigFile.GetAtPath` | openclaw-zero-token/cli/config-cli.ts:190-214 | The loop finds exactly the value that the path leads to, holes and `null` included. |
| `ConfigTree.ConfigFile.SetAtPath` | openclaw-zero-token/cli/config-cli.ts:216-258 | The loop leaves the specified tree and error in place; a throwing call on an object or array leaves the tree as it was, although containers are assigned on the way. |
| `ConfigTree.ConfigFile.UnsetAtPath` | openclaw-zero-token/cli/config-cli.ts:260-306 | The loop leaves the specified tree and result in place. |
| `ConfigTree.ConfigFile.Assign` | openclaw-zero-token/cli/config-cli.ts:229-257 | An assignment through a reference replaces the value at the prefix that leads to it, and nothing else. |
| `ConfigPathSyntax.ParsePath` | openclaw-zero-token/cli/config-cli.ts:105-155 | The loop returns the specified segments, or the missing-bracket or empty-bracket error. |
| `ConfigPathSyntax.DotPathRoundTrip` | openclaw-zero-token/cli/config-cli.ts:105-155 | A path survives `toDotPath` and `parsePath` exactly when its segments are non-empty, trim-stable and free of backslash, dot and opening bracket. |
| `ConfigPathSyntax.EscapedRoundTrip` | openclaw-zero-token/cli/config-cli.ts:115-130 | With those three characters escaped, a path survives exactly when its segments are non-empty and trim-stable. |
| `ConfigPathSyntax.CleanGivesSegments` | openclaw-zero-token/cli/config-cli.ts:154 | Whatever is parsed, the result has only non-empty, trim-stable segments. |
| `StatusReactionTheorems.PresentReactionsAreKnown` | openclaw-zero-token/channels/status-reactions.ts:159-252 | On every run, whatever adapter calls fail, every reaction on the message is one of `knownEmojis`. |
| `StatusReactionTheorems.ClearLeavesNothing` | openclaw-zero-token/channels/status-reactions.ts:347-375 | A `clear` whose removals all succeed leaves no reaction, whatever failed before it and whatever is called meanwhile. |
| `StatusReactionTheorems.ShowsTheCurrentEmoji` | openclaw-zero-token/channels/status-reactions.ts:232-252 | With `removeReaction` and no failing call, the message shows exactly the current emoji, or nothing, whenever no task is running. |
| `StatusReactionTheorems.ShowsTheLatestEmoji` | openclaw-zero-token/channels/status-reactions.ts:232-252 | Without `removeReaction` and with no failing call, the message shows exactly the emoji set last, or nothing, whenever no task is running; that is the current emoji except exactly where a `clear` was the last task to end and an emoji is still shown. |
| `StatusReactionTheorems.ClearCanLeaveTheEmoji` | openclaw-zero-token/channels/status-reactions.ts:355-371 | With such an adapter a `clear` behind a `setDone` leaves the done emoji on the message. |
| `StatusReactionTheorems.TerminalEmojiIsLast` | openclaw-zero-token/channels/status-reactions.ts:257-345 | After `setDone` or `setError`, as long as no call of that rank follows, no timer is armed, the chain takes a bounded number of steps, and when it has none left it is empty with the terminal emoji as the last one set. |
| `StatusReactionTheorems.NextStaysKnown` | openclaw-zero-token/channels/status-reactions.ts:232-387 | Every step keeps the scheduled, queued, running and present emojis among the known ones. |
| `StatusReactionTheorems.NextStaysInSync` | openclaw-zero-token/channels/status-reactions.ts:232-252 | Every step without failure keeps the present reactions equal to what the running task has made of the current one. |
| `StatusReactions.StatusReactionController.constructor` | openclaw-zero-token/channels/status-reactions.ts:127-156 | A new controller shows, schedules and queues nothing. |
| `StatusReactions.StatusReactionController.ScheduleEmoji` | openclaw-zero-token/channels/status-reactions.ts:257-296 | Ignores, deduplicates, debounces or queues the emoji and resets the stall timers, as the protocol says. |
| `StatusReactions.StatusReactionController.SetQueued` | openclaw-zero-token/channels/status-reactions.ts:302-304 | Schedules the queued emoji at once. |
| `StatusReactions.StatusReactionController.SetThinking` | openclaw-zero-token/channels/status-reactions.ts:306-308 | Schedules the thinking emoji behind the debounce timer. |
| `StatusReactions.StatusReactionController.SetTool` | openclaw-zero-token/channels/status-reactions.ts:310-313 | Schedules the emoji of the tool: web tokens before coding tokens, else the general one. |
| `StatusReactions.StatusReactionController.SetCompacting` | openclaw-zero-token/channels/status-reactions.ts:315-317 | Schedules the compacting emoji behind the debounce timer. |
| `StatusReactions.StatusReactionController.CancelPending` | openclaw-zero-token/channels/status-reactions.ts:319-322 | Drops the debounced emoji, and keeps the stall timers. |
| `StatusReactions.StatusReactionController.FinishWithEmoji` | openclaw-zero-token/channels/status-reactions.ts:324-337 | Ends the controller: clears all timers and queues the terminal emoji. |
| `StatusReactions.StatusReactionController.SetDone` | openclaw-zero-token/channels/status-reactions.ts:339-341 | Finishes with the done emoji. |
| `StatusReactions.StatusReactionController.SetError` | openclaw-zero-token/channels/status-reactions.ts:343-345 | Finishes with the error emoji. |
| `StatusReactions.StatusReactionController.Clear` | openclaw-zero-token/channels/status-reactions.ts:347-375 | Ends the controller and queues the removal of all known emojis. |
| `StatusReactions.StatusReactionController.RestoreInitial` | openclaw-zero-token/channels/status-reactions.ts:377-387 | Clears the timers and queues the initial emoji without ending or reviving the controller. |
| `StatusReactions.StatusReactionController.ClearAllTimers` | openclaw-zero-token/channels/status-reactions.ts:184-197 | Clears all three timers and nothing else. |
| `StatusReactions.StatusReactionController.ResetStallTimers` | openclaw-zero-token/channels/status-reactions.ts:212-227 | Arms both stall timers and nothing else. |
| `StatusReactions.StatusReactionController.DebounceFires` | openclaw-zero-token/channels/status-reactions.ts:282-287 | The debounce callback queues the emoji it was armed with. |
| `StatusReactions.StatusReactionController.StallSoftFires` | openclaw-zero-token/channels/status-reactions.ts:220-222 | The soft stall callback schedules its emoji at once and resets no stall timer. |
| `StatusReactions.StatusReactionController.StallHardFires` | openclaw-zero-token/channels/status-reactions.ts:224-226 | The hard stall callback schedules its emoji at once and resets no stall timer. |
| `StatusReactions.StatusReactionController.TaskStarts` | openclaw-zero-token/channels/status-reactions.ts:232-239 | The next task of the chain runs up to its first adapter call. |
| `StatusReactions.StatusReactionController.CallSettles` | openclaw-zero-token/channels/status-reactions.ts:239-251 | A settled adapter call continues its task; a failed one ends it with the current emoji unchanged, or goes on with the next removal. |
| `CommandArgs.ParseFormatRoundTrip` | openclaw-zero-token/auto-reply/commands-registry.ts:204-252 | For distinct argument names, printing and parsing give the same values back exactly when the values fill a prefix of the definitions with single words, a capturing one with a single-spaced list. |
| `CommandArgs.FormatParseRoundTrip` | openclaw-zero-token/auto-reply/commands-registry.ts:204-252 | Parsing and printing give the single-spaced form of the line cut after the last word that has a place; nothing is lost exactly when the words fit the definitions or one captures the rest. |
| `CommandArgs.CommandArgsRoundTrip` | openclaw-zero-token/auto-reply/commands-registry.ts:254-289 | Serializing parsed arguments gives the trimmed line, which parses to the same arguments again. |
| `CommandArgs.ValuesRoundTrip` | openclaw-zero-token/auto-reply/commands-registry.ts:271-289 | Canonical values without their line survive serializing and parsing. |
| `CommandArgs.PlacedAll` | openclaw-zero-token/auto-reply/commands-registry.ts:204-225 | The words that find a place are a prefix, all of them exactly when they fit, and the others do not matter. |
| `CommandArgs.ParsePositionalArgs` | openclaw-zero-token/auto-reply/commands-registry.ts:204-225 | The loop assigns the specified values. |
| `CommandArgs.FormatPositionalArgs` | openclaw-zero-token/auto-reply/commands-registry.ts:227-252 | The loop prints the specified line, or none. |
| `Utf16.SliceUtf16Safe` | openclaw-zero-token/utils.ts:238-265 | For all bounds, negative and swapped ones included, the result is the largest part of the requested range whose ends take no surrogate pair apart; on well-formed text it is the largest well-formed part. |
| `Utf16.CleanCutsAreWellFormed` | openclaw-zero-token/utils.ts:250-262 | Cutting well-formed text leaves well-formed text exactly when no end takes a pair apart. |
| `Utf16.LargestPartIsUnique` | openclaw-zero-token/utils.ts:238-265 | The input and the range determine the largest clean part, so the slice is specified completely. |
| `Utf16.LargestIsWellFormed` | openclaw-zero-token/utils.ts:238-265 | On well-formed text the largest clean part contains every well-formed part of the range. |
| `Utf16.TruncateUtf16Safe` | openclaw-zero-token/utils.ts:267-273 | A text longer than the limit becomes its prefix of that length, or one unit less only if the limit takes a pair apart. |
| `RunStates.ActiveRunsIsNetAboveLowest` | openclaw-zero-token/channels/run-state-machine.ts:85-96 | For any events, `activeRuns` is the net count of starts and ends minus the lowest net count of any prefix. |
| `RunStates.StatusIsCurrent` | openclaw-zero-token/channels/run-state-machine.ts:25-56 | After any events the heartbeat is armed exactly while the lifecycle is active and a run is, and while active the last published count and busy flag are the current ones. |
| `RunStates.NothingAfterDeactivation` | openclaw-zero-token/channels/run-state-machine.ts:58-61 | Nothing is published once the lifecycle has ended, whatever happens next. |
| `RunStates.RunStateMachine.constructor` | openclaw-zero-token/channels/run-state-machine.ts:18-79 | The machine starts as the history of no events says, publishing the reset status only if not aborted. |
| `RunStates.RunStateMachine.OnRunStart` | openclaw-zero-token/channels/run-state-machine.ts:85-89 | The fields are those the recorded history plus a start leads to. |
| `RunStates.RunStateMachine.OnRunEnd` | openclaw-zero-token/channels/run-state-machine.ts:90-96 | The fields are those the recorded history plus an end leads to. |
| `RunStates.RunStateMachine.OnHeartbeat` | openclaw-zero-token/channels/run-state-machine.ts:48-54 | The fields are those the recorded history plus a tick leads to. |
| `RunStates.RunStateMachine.OnDeactivate` | openclaw-zero-token/channels/run-state-machine.ts:58-61 | The fields are those the recorded history plus the deactivation leads to. |
| `RunStates.RunStateMachine.PublishStatus` | openclaw-zero-token/channels/run-state-machine.ts:25-34 | Publishes the current count and busy flag while the lifecycle is active, and nothing after it. |
| `DebounceBatches.CollectsIntoBuffer` | openclaw-zero-token/auto-reply/inbound-debounce.ts:199-205 | A debounced item for a key with a buffer goes behind the items of that buffer and rearms it with its own delay; tasks, map, chains, other buffers and started flushes stay as they were. |
| `DebounceBatches.OpensBuffer` | openclaw-zero-token/auto-reply/inbound-debounce.ts:214-231 | Where the key may be tracked, a debounced item without a buffer opens an armed one that holds just the item, and reserves a closed slot at the end of the chain. |
| `DebounceBatches.SaturatedIsChained` | openclaw-zero-token/auto-reply/inbound-debounce.ts:206-213 | Where it may not, the item becomes a released task of its own at the end of the chain, and no buffer is opened. |
| `DebounceBatches.ImmediateForcesFlush` | openclaw-zero-token/auto-reply/inbound-debounce.ts:170-184 | An immediate item for a key with a buffer lets that buffer go and reserves a slot behind it that waits for it. |
| `DebounceBatches.ImmediateIsChained` | openclaw-zero-token/auto-reply/inbound-debounce.ts:185-193 | An immediate item for a key with a chain but no buffer is chained by itself, released. |
| `DebounceBatches.ImmediateIsDirect` | openclaw-zero-token/auto-reply/inbound-debounce.ts:185-197 | An immediate item with neither, or without a key, is flushed at once and outside every chain. |
| `DebounceBatches.FlushKeyLetsGo` | openclaw-zero-token/auto-reply/inbound-debounce.ts:140-146 | `flushKey` unmaps, disarms and releases the buffer of the key, and does nothing where there is none. |
| `DebounceBatches.BufferGathers` | openclaw-zero-token/auto-reply/inbound-debounce.ts:126-205 | On every run from the opening of a buffer on, it holds its first item and, in arrival order, every debounced item of its key up to the event that lets it go, and it is let go exactly if such an event occurs. |
| `DebounceBatches.BufferIsOneBatch` | openclaw-zero-token/auto-reply/inbound-debounce.ts:97-205 | If the slot of a buffer has started by the end of a run, it did so exactly once, and handed to `onFlush` one batch: the items of the buffer and all debounced ones of its key that came before it was let go, in order. |
| `DraftStreamSteps.UpdateTakesEffect` | openclaw-zero-token/channels/draft-stream-loop.ts:65-79 | An update is taken exactly if the stream is neither stopped nor final; it is sent at once exactly if nothing is in flight, no timer is armed and the throttle interval has passed, and is pending behind an armed timer otherwise. |
| `DraftStreamSteps.WindowMovesIff` | openclaw-zero-token/channels/draft-stream-loop.ts:42-50 | The start of the throttle interval moves to the time of a delivered send, to zero by a reset, and never otherwise. |
| `DraftStreamSteps.FlushTakesEffect` | openclaw-zero-token/channels/draft-stream-loop.ts:20-41 | Every flush, from wherever it is started or resumed, returns if stopped, waits for the send in flight, drops blank text, and issues the send of any other. |
| `DraftStreamSteps.SettlingTakesEffect` | openclaw-zero-token/channels/draft-stream-loop.ts:30-50 | A settled send leaves its outcome, wakes or throws the flushes that await it, puts a refused text back, and lets a delivered one flush what is pending. |
| `DraftStreamSteps.ResetsTakeEffect` | openclaw-zero-token/channels/draft-stream-loop.ts:81-97 | `stop` of the loop, `resetPending` and `resetThrottleWindow` change what they name and nothing else. |
| `DraftStreamSteps.TakeTakesEffect` | openclaw-zero-token/channels/draft-stream-controls.ts:57-97 | `takeMessageIdAfterStop` stops the stream and drops text and timer at once, waits for the send in flight, and then returns the recorded id and clears it. |
| `DraftStreamSteps.TakeIsWoken` | openclaw-zero-token/channels/draft-stream-controls.ts:57-97 | A take that waits for a send reads the id once that has resolved and fails if it fails. |
| `DraftStreamSteps.StopIsFinal` | openclaw-zero-token/channels/draft-stream-controls.ts:45-55 | From the moment of a `stop` the stream is final, no update is taken in any continuation, and the flush of that very stop sends the pending text or waits for the send in flight. |
| `DraftStreamSteps.StopEventDelivers` | openclaw-zero-token/channels/draft-stream-controls.ts:45-55 | On every run that contains a `stop` on a stream not stopped otherwise: once the flush that it started has returned and not from a refused send, nothing is left to send, and each text accepted before was delivered exactly if no step lost it. |
| `StatusReactionPhases.PhaseTakesEffectIff` | openclaw-zero-token/channels/status-reactions.ts:257-317 | A phase call queues its own emoji, or arms the debounce with it and drops the older one, exactly if the controller is enabled and not finished and the emoji is neither current nor pending; it restarts the stall timers of a live controller in either case. |
| `StatusReactionPhases.StallTakesEffectIff` | openclaw-zero-token/channels/status-reactions.ts:212-227 | A stall timer that fires queues its emoji under exactly the same condition and rearms neither timer. |
| `StatusReactionPhases.WantedPhaseIsShown` | openclaw-zero-token/channels/status-reactions.ts:232-317 | From an idle controller, each phase call or stall timer whose emoji is wanted, followed by its own timer and the steps of the chain without failure, ends with that emoji current and set last. |
| `StatusReactionPhases.DebounceTakesEffect` | openclaw-zero-token/channels/status-reactions.ts:282-322 | The debounce timer queues the emoji it was armed with; `cancelPending` drops it unqueued. |
| `StatusReactionPhases.TerminalTakesEffect` | openclaw-zero-token/channels/status-reactions.ts:324-387 | `setDone`, `setError` and `clear` end an enabled controller and `restoreInitial` does not; each turns the timers off and queues its own task. |
| `StatusReactionPhases.TaskTakesEffect` | openclaw-zero-token/channels/status-reactions.ts:229-252 | A task leaves the chain and makes its first adapter call, or ends where there is none to make. |
| `StatusReactionPhases.SettlingTakesEffect` | openclaw-zero-token/channels/status-reactions.ts:238-252 | Behind a successful set the previous emoji is removed exactly if there is a different one and the adapter can; a failed call ends the task with the current emoji as it was. |
| `StatusReactionPhases.ClearingTakesEffect` | openclaw-zero-token/channels/status-reactions.ts:355-371 | A removal of `clear` goes on to the next known emoji whether it succeeds or not. |
| `StatusReactionPhases.ClearEmptiesTheMessage` | openclaw-zero-token/channels/status-reactions.ts:347-375 | From an idle controller, a `clear` whose removals succeed empties the message and forgets the current emoji. |
| `StatusReactionPhases.DisabledIsSilent` | openclaw-zero-token/channels/status-reactions.ts:261-263 | No run of a disabled controller calls the adapter. |
| `StatusReactionPhases.ToolEmojiIsTheFirstMatch` | openclaw-zero-token/channels/status-reactions.ts:101-116 | A tool whose name contains a web token gets the web emoji, else with a coding token the coding one, else the general one. |
| `StatusReactionPhases.KnownIsConfigured` | openclaw-zero-token/channels/status-reactions.ts:158-171 | The emojis that `clear` removes are the initial and the ten configured ones, each once. |
| `MarkdownShape.CutsOnlyIfNeeded` | openclaw-zero-token/auto-reply/chunk.ts:289-300 | For every integer limit there are no chunks exactly if the text is empty, and a text that fits, or any text under a limit that is not positive, is its only chunk. |
| `MarkdownShape.NothingIsLost` | openclaw-zero-token/auto-reply/chunk.ts:315-413 | For every text and limit the chunks hold, in order, parts of the text that make the whole text with blank gaps between them, so every other character survives. |
| `MarkdownShape.ChunkEndsAtTheBestPlace` | openclaw-zero-token/auto-reply/chunk.ts:326-389 | A chunk that takes the rest does so exactly if the rest fits; any other ends at the last newline of its window outside fences and parentheses, else the last such white space, else at the best place of the fence it is in, else at the end of the window. |
| `MarkdownShape.FenceBreakIsTheBest` | openclaw-zero-token/auto-reply/chunk.ts:346-388 | Inside a fence a chunk ends at the last line start behind the opening line where the closing line still fits, else as late as that fits on a line of its own, else at the limit. |
| `MarkdownShape.DepthIsNetAboveLowest` | openclaw-zero-token/auto-reply/chunk.ts:442-476 | The parenthesis depth of the scan is the number of opening minus closing parentheses outside fences above the lowest such number on the way: closing ones that close nothing are forgotten. |
| `MarkdownShape.GapIsExact` | openclaw-zero-token/auto-reply/chunk.ts:397-411 | What is skipped behind a chunk is the unit at its end exactly if that is white space, and then all newlines, but none inside a fence. |
| `MarkdownShape.ChunkIsItsPartBetweenLines` | openclaw-zero-token/auto-reply/chunk.ts:327-403 | A chunk is its part of the text, behind the opening line of the fence around the break before it, and in front of the indent and marker of the fence around its own break, on a line of their own. |
| `Fences.MatchesIffReads` | openclaw-zero-token/markdown/fences.ts:28-28 | A line is a fence line exactly if it is at most three spaces, three or more equal marks, none more behind them, and no line terminator. |
| `Fences.ClosesIffPrefix` | openclaw-zero-token/markdown/fences.ts:43-43 | A fence line closes a block exactly if its marker starts with the marker that opened it. |
| `ConfigTree.SetMakesContainers` | openclaw-zero-token/cli/config-cli.ts:216-243 | Behind a write there is a container at every step of the way: of the same kind where there was one, and elsewhere an array exactly if the next segment is a string of digits. |
| `ConfigTree.SetAssigns` | openclaw-zero-token/cli/config-cli.ts:245-257 | Under a parent that is found a write assigns one key or element, and an array grows by holes only. |
| `ConfigTree.ErrorNamesSegment` | openclaw-zero-token/cli/config-cli.ts:222-249 | The error of a write into a container names a segment that is no index and meets an array on the way. |
| `ConfigTree.RootMustBeContainer` | openclaw-zero-token/cli/config-cli.ts:234-256 | A root that is neither object nor array rejects every write and stays as it is. |
| `ConfigTree.GetStep` | openclaw-zero-token/cli/config-cli.ts:190-214 | Reading goes one step down for each segment, by key in an object and by number in an array, and finds nothing below anything else. |
| `ConfigTree.IndexIsDecimal` | openclaw-zero-token/cli/config-cli.ts:101-103 | The index of a segment of digits is its decimal value, leading zeros included. |
| `ConfigPathSyntax.MixedRoundTrip` | openclaw-zero-token/cli/config-cli.ts:105-155 | A path written with any of its segments in brackets and the others escaped is read back. |
| `ConfigPathSyntax.OpenBracketIsError` | openclaw-zero-token/cli/config-cli.ts:136-139 | A bracket that is never closed is an error. |
| `ConfigPathSyntax.BlankBracketIsError` | openclaw-zero-token/cli/config-cli.ts:140-143 | A bracket around white space alone is an error, whatever follows it. |
| `ConfigPathSyntax.EmptyPartsVanish` | openclaw-zero-token/cli/config-cli.ts:114-130 | A dot in front of a path adds no part, and a backslash at its very end is dropped. |
| `ConfigPathSyntax.CleanOne` | openclaw-zero-token/cli/config-cli.ts:154-154 | A part is trimmed, and dropped if it is blank. |
| `CommandArgs.AssignedAt` | openclaw-zero-token/auto-reply/commands-registry.ts:204-225 | Each argument gets the word at its own place, a capturing one all words from there on, and none if there is no word or an earlier one captured it. |
| `CommandArgs.PartsInOrder` | openclaw-zero-token/auto-reply/commands-registry.ts:227-252 | The arguments print one after the other up to a capturing one that prints something, which ends the line. |
| `CommandArgs.PartOf` | openclaw-zero-token/auto-reply/commands-registry.ts:233-247 | One argument prints its trimmed string or its scalar as it is, or nothing. |
| `CommandArgs.ArgsTakeEffect` | openclaw-zero-token/auto-reply/commands-registry.ts:254-289 | A line that is not blank parses, to values exactly if the command defines and parses arguments; serializing prefers the line, then the command's own printer. |
| `JsText.SpaceSeparates` | openclaw-zero-token/auto-reply/commands-registry.ts:210-210 | Any white-space unit separates words, so runs of several separate like one. |
| `JsText.TrimCutsSpace` | openclaw-zero-token/auto-reply/commands-registry.ts:206-206 | Trimming takes white space off both ends and nothing else. |
| `Utf16.BoundIsNearest` | openclaw-zero-token/utils.ts:238-248 | A bound denotes the position of the text nearest to it, a negative one being counted from the end. |
| `Utf16.RequestedIsBetween` | openclaw-zero-token/utils.ts:238-248 | The requested range lies between the two bounds in whichever order they come. |
| `RunStates.StepPublishesIff` | openclaw-zero-token/channels/run-state-machine.ts:25-96 | A start, an end and a tick of the armed heartbeat publish the count, the busy flag and the time once each while the lifecycle is active; nothing else publishes. |
| `RunStates.TickPublishes` | openclaw-zero-token/channels/run-state-machine.ts:48-54 | After any events, a tick of the armed heartbeat publishes the active runs as busy and leaves it armed. |

## Left out

- The mode and limit resolvers of `auto-reply/chunk.ts`, `chunkText`, `chunkByParagraph` and newline mode: the first are table lookups, the others rest on a module that is not part of this model.
- `resolveDebounceMs`, `buildKey` and `shouldDebounce` of the debouncer are parameters of `Enqueue`; truncation of fractional settings is not modelled.
- `onError` and `warn` reports, which change no state.
- The lengths of timers: an armed timer may fire at any later step, so nothing is said about a minimum gap between sends or about debounce delays.
- Synchronous re-entry of callbacks, and the order of microtasks within one step.
- An owner of a draft stream that sets `state.final` back to false, as `telegram/src/draft-stream.ts:392-405` does, or that calls `controls.loop.update`, which skips the test of `final`: neither is an event of the model, so what holds of finalized streams holds while they stay finalized and are updated through the controls.
- `clearFinalizableDraftMessage` behind the id it takes (`channels/draft-stream-controls.ts:107-115`): a validity test and one delete call.
- The promises that `enqueue`, `flushKey`, `stop`, `setDone`, `setError`, `clear` and `restoreInitial` return to their callers, other than the suspensions that the steps stand for.
- Trimming and lower-casing of tool names, and the merging of emoji and timing overrides: the model takes the results.
- The order of object keys, aliasing between subtrees, array indices from 2^32 - 1 on and keys such as `__proto__` in the config tree; a reference into the tree is the path prefix that leads to it.
- The empty path in `setAtPath` and `unsetAtPath`, which the commands reject before calling them.
- File and environment access, schema validation, JSON5 parsing and secret references of `cli/config-cli.ts`.
- Command authorization, gating, mention and acknowledgement tables, provider fetches, the control center and the canvas host: decision tables and I/O that would only add easy members.
