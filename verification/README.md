# Verified model of the client's recording, caching and lockstep logic

A Dafny 4.11 model of the parts of the repository whose correctness depends on what happened over
a whole run: recording, replaying and exporting demos, the asset cache, the lockstep
("deterministic") mode of the client, the cached state of the unpredicted game, and a few smaller
algorithms (ghost ids, key binds, sprite sheets, numbered asset parts). `dafny verify dfyconfig.toml`
checks everything.

## What is modelled

**Demos** (`game/demo`, `game/client-demo`, `game/client-replay`). Snapshots and events arrive in
any order of ticks. The recorder buffers them, accepts ticks up to three seconds late, splits off
chunks of 1500 entries and sends them to a writer thread. The writer delta-codes each chunk, appends
it to one byte stream and finally writes the tail with two indexes and the header. The viewer
reads chunks lazily and keeps a sliding window; an export steps through a range and records it anew;
the replay buffer keeps the last 30 seconds.

- The reference for a recording knows no buffer and no chunk: an add is accepted unless some earlier
  add of its stream was more than three seconds ahead, the last accepted snapshot of a tick wins, and
  events of a tick are kept in order (`DemoRecorder.RecordsSnapshots`, `RecordsEvents`). The
  recorder, the writer and the reader together are proved to give exactly that recording back
  (`DemoRoundTrip.FinishRecording`), and the order checks of the writer never fail.
- The reference for the viewer is the whole recording: the window must be one stretch of it without a
  hole, around the tick (`DemoViewer.Shows`). Any run of seeks and single steps in either direction gives
  it (`DemoPlayback.PlaybackShows`). For any other jump forward or back the exact condition is proved; a
  jump that leaves the cached stretch does break the window.
- The length in the header and the playback clock of the viewer are two roundings of the same ticks.
  `DemoLength` puts them together on one and the same opened demo: playing to the stored length reaches the
  last tick of both streams.
- bincode, zstd and bin-patch are parameters with laws (`DemoCodec.FileLaws`): a value is read back from
  its bytes whatever follows, decompression inverts compression, a patch made from two values turns the
  first into the second, neither gives an empty result, and the fixed-size header has one size. A value is
  read back if it `fits`, which the laws promise of numbers and indexes of 64 bits and no others.
  `DemoCodecExample.LawsAreConsistent` constructs a codec that meets all of them.
- A `BTreeMap` is the sequence of its entries in key order (`OrderedMaps`).

**Asset container** (`game/client-containers`). The linked hash map is a sequence whose order is shown
to agree with the time of last use in every reachable state, given a clock that does not run
backwards. So the eviction loop, which stops at the first entry to keep, removes exactly the expired
entries before the default entry. The loading table is accounted for: every task started since the last
clear is in flight, failed, or has ended as a loaded entry. Tasks finish at any time: each call is
given the results that are available by then. Which other task is polled when the wanted one cannot be
started is left open. Numbered parts (`PartLoader`) form the one maximal run of default parts followed
by own parts.

**Lockstep mode** (`src/client/client.rs`). A ghost history records what happened since the last
reset; the fields of the runtime follow from it. Whole frames, in the order of the client's `run`, are
a step function, and runs of frames have a tight bound.

**Unpredicted game** (`game/client-map`, `render_game`). The game state is built in place: each build
overwrites its part from a snapshot and leaves the other, and events are cleared afterwards. The builders
are parameters with these laws (`Unpredicted.GameLaws`); ratios are reals.

**Ghost ids, key binds, sprite sheets**. Ids are 64-bit numbers counted down. Key names are
strings as they are serialized, and the sets of known names are parameters. Rows of a sheet are the exact
chunks of its bytes.

## Where code and documentation disagree

The model follows the code.

- A zero length or no chunks is documented as the mark of a broken demo (`game/demo/src/lib.rs:31-33`). An
  unfinished demo always carries the mark (`DemoRoundTrip.UnfinishedIsMarked`) and a finished one always has
  chunks, but a finished one has length zero exactly if it spans a single tick or, with more than one tick
  per nanosecond, less than a second (`DemoTime.ZeroLenIff`, `DemoRoundTrip.FinishedMark`).
- A recording without any entry is dropped as invalid, but in memory the bytes written so far are handed over
  and opened all the same; whether that is an error depends on what the libraries make of no bytes
  (`DemoRoundTrip.BeginningOpens`).
- Interpolation divides by the width of the bracket cast to 32 bits: it is right in exactly the brackets
  narrower than 2^32 ticks (`DemoTime.InterpolatesIffNarrow`).
- A recording that has only events is finished and kept by the writer, but the reader refuses it
  (`DemoRoundTrip.OpensAs`).
- A test expects a mouse button to be printed as `left` (`game/binds/src/binds.rs:525`); the code prints
  `mouse_left` and reads both (`BindKeys.MousePrefixIsOptional`).
- `blocking_wait_loaded` does not wait if 16 other tasks are in flight
  (`AssetContainer.Container.BlockingWaitLoaded`).
- The skin splitter gives rows beyond the declared height to the parts of the last band
  (`SpriteSheets.SkinPartSize`).
- A numbered part whose base name contains a dot is always the same file, and its list never ends
  (`PartLoader.EndlessRun`).
- If no snapshot at or before the tick is left, the previous part of the unpredicted state stays what it
  was (`Unpredicted.GameUnpredicted.FromSnapshots`).

## Model

| member | source | states |
|---|---|---|
| DemoChunk.WriteChunk | game/demo/src/recorder.rs:262-315 | the written bytes are the chunk format: entry count, first entry compressed whole, later ones as patches, all compressed behind its 8-byte size |
| DemoChunk.ReadChunks | game/client-demo/src/lib.rs:104-162 | the cursor loop decodes that format, with every error case and skipping entries of size 0 |
| DemoChunk.EntryRoundTrip | game/client-demo/src/lib.rs:134-157 | one link of the delta chain: the cursor consumes exactly the written entry |
| DemoChunk.EntriesRoundTrip | game/client-demo/src/lib.rs:134-157 | the whole chain is read back, behind entries already read and before anything that follows |
| DemoChunk.ChunkRoundTrip | game/client-demo/src/lib.rs:104-162 | reading at the offset of a written chunk returns the chunk, whatever is stored around it |
| DemoCodec.Le64RoundTrip | game/demo/src/recorder.rs:306-312 | the 8-byte little-endian size is read back for all 64-bit sizes |
| DemoTime.LenIsDuration | game/demo/src/recorder.rs:432-439 | the nanosecond part of the header length is below one second, for every tick rate |
| DemoTime.LenReaches | game/client-demo/src/lib.rs:164-178 | where playing to the computed length ends, with the 64-bit cast of the tick count, and exactly when that is the last tick or beyond it |
| DemoTime.ZeroLenIff | game/demo/src/recorder.rs:432-439 | the length is zero exactly for a single tick, or for less than a second with more than one tick per nanosecond |
| DemoTime.IntraTickValue | game/client-demo/src/lib.rs:184-204 | the intra-tick time in plain arithmetic for every tick: zero in an empty bracket, and a tick outside counts as the end of the bracket it is next to |
| DemoTime.IntraTickIsLinear | game/client-demo/src/lib.rs:184-204 | inside a bracket the intra-tick time is the linear position of the clock in the bracket, below one tick |
| DemoTime.IntraTickIsMonotone | game/client-demo/src/lib.rs:184-204 | it never runs backwards while the clock stays in one bracket |
| DemoTime.TimeToTickIsMonotone | game/client-demo/src/lib.rs:164-178 | a later playback time never shows an earlier tick |
| DemoTime.WideBracketBreaksInterpolation | game/client-demo/src/lib.rs:202 | in every bracket of 2^32 ticks or more the division panics or gives something else by 2^32 - 1 ticks into it, because the width is cast to 32 bits |
| DemoTime.InterpolatesIffNarrow | game/client-demo/src/lib.rs:184-204 | the intra-tick time is linear and below one tick at all times of a bracket, exactly if the bracket is narrower than 2^32 ticks |
| DemoRecorder.CanAddIsAccepted | game/demo/src/recorder.rs:508-519 | the test on the newest buffered tick decides exactly the three-second window of the reference |
| DemoRecorder.GetChunksTh | game/demo/src/recorder.rs:473-483 | both lookups, from the front and from the back, find the first key after one chunk |
| DemoRecorder.TryWriteChunks | game/demo/src/recorder.rs:467-506 | splits off exactly the first 1500 entries if the entry after them is more than three seconds older than the newest, and nothing otherwise |
| DemoRecorder.FlushKeepsStream | game/demo/src/recorder.rs:485-505 | a flush changes neither the recording nor what is accepted next, never empties the buffer, and keeps it below 1502 entries plus one per tick of the window |
| DemoRecorder.OfferKeepsStream | game/demo/src/recorder.rs:530-535 | offering to the buffer is offering to the whole recording, as if nothing had been split off |
| DemoRecorder.SnapshotStep | game/demo/src/recorder.rs:521-536 | after every add the recording maps each tick to its last accepted snapshot |
| DemoRecorder.EventStep | game/demo/src/recorder.rs:538-553 | after every add the recording maps each tick to all accepted events, in order |
| DemoRecorder.SnapshotAdded | game/demo/src/recorder.rs:521-536 | flush and offer together keep full chunks, strict order, the bounded buffer and the reference recording |
| DemoRecorder.EventAdded | game/demo/src/recorder.rs:538-553 | the same for events |
| DemoRecorder.DemoRecorder.AddSnapshot | game/demo/src/recorder.rs:521-536 | keeps all of this for every run, sends a chunk exactly if a flush is due, and leaves events alone |
| DemoRecorder.DemoRecorder.AddEvent | game/demo/src/recorder.rs:538-553 | the same for events |
| DemoRecorder.ChunkedHoldsAll | game/demo/src/recorder.rs:563-581 | the chunks of the rest hold exactly the data in order; none is empty and only the last may be short |
| DemoRecorder.ChunkedKeepsStream | game/demo/src/recorder.rs:560-588 | all chunks of a stream together are non-empty, strictly increasing, and hold the whole recording |
| DemoRecorder.DemoRecorder.Drop | game/demo/src/recorder.rs:560-588 | sends everything that is left; the chunks sent over the whole run are in order |
| DemoRecorder.DemoRecorder.CancelRecording | game/demo/src/recorder.rs:555-557 | the writer is told to stop before anything else is sent |
| DemoFile.SerializeAndWriteChunk | game/demo/src/recorder.rs:318-365 | appends the chunk, indexes its first tick, and which of the order checks fails exactly when |
| DemoFile.NextChunkInOrder | game/demo/src/recorder.rs:332-363 | for the chunks of a recorder all order checks hold and the first tick is a new index key |
| DemoFile.DecodeMore | game/client-demo/src/lib.rs:104-130 | bytes written later do not disturb a chunk that can be read |
| DemoFile.IndexesNext | game/demo/src/recorder.rs:342-348 | after a chunk is appended the index leads to all chunks, old and new |
| DemoFile.OpenFile | game/client-demo/src/lib.rs:1003-1060 | a file with correct sizes is taken apart into its pieces; one without snapshots is refused |
| DemoWriter.SnapshotsWritten | game/demo/src/recorder.rs:367-383 | a snapshot chunk from the channel passes all checks, and both indexes lead to their chunks afterwards |
| DemoWriter.EventsWritten | game/demo/src/recorder.rs:384-400 | the same for a chunk of events |
| DemoWriter.ReceiveAll | game/demo/src/recorder.rs:367-408 | for everything a dropped recorder can leave in the channel, in any interleaving, the loop ends without an error and with both indexes complete; a cancel always stops it |
| DemoWriter.HeaderKeepsPlace | game/demo/src/recorder.rs:427-447 | the final header overwrites exactly the placeholder |
| DemoWriter.Run | game/demo/src/recorder.rs:157-464 | the finished file is header, dynamic header, byte stream and tail with the right sizes, length and indexes; it is kept exactly if something was received |
| DemoRoundTrip.FileOpens | game/client-demo/src/lib.rs:1003-1060 | the written file opens as a demo whose indexes lead to all chunks and whose header spans both streams |
| DemoRoundTrip.HeaderLen | game/demo/src/recorder.rs:432-445 | the casts into the stored header lose nothing of the length |
| DemoRoundTrip.UnfinishedIsMarked | game/demo/src/lib.rs:31-33 | until the final header is written a demo carries the documented mark of a broken one, in its length and in the size of its chunks |
| DemoRoundTrip.FinishedMark | game/demo/src/lib.rs:31-33 | a finished demo never has chunks of size zero, and carries the mark exactly if it spans no time |
| DemoRoundTrip.BeginningOpens | game/client-demo/src/lib.rs:1003-1060 | opening what is written without any entry fails exactly if no bytes are no tail with snapshots |
| DemoRoundTrip.FinishRecording | game/demo/src/recorder.rs:157-464 | dropping the recorder, writing and opening together give back exactly the reference recording of all calls; the mark of the finished demo is right; without any entry the file is its beginning |
| DemoLength.SpanBoundsStreams | game/demo/src/recorder.rs:414-419 | the first and the last tick of the header bound both streams, and are ticks of one of them |
| DemoLength.ClockStart | game/client-demo/src/lib.rs:164-178 | the playback clock of an opened demo starts at its first recorded snapshot |
| DemoLength.LenCoversRecording | game/client-demo/src/lib.rs:164-178 | playing an opened recording to its stored length reaches the last tick of both streams; how far it goes beyond, when exactly it stops there, and when exactly the 64-bit cast prevents it |
| DemoLength.NothingRounded | game/demo/src/recorder.rs:432-439 | exactly when no tick is added by rounding; never before the first whole second or with a tick rate that divides one second |
| DemoLength.LenExactForWholeTicks | game/demo/src/recorder.rs:432-439 | with such a tick rate playback of an opened recording stops on its last tick exactly if it starts with a snapshot |
| DemoViewer.CheckChunks | game/client-demo/src/lib.rs:221-245 | the loads and the trimming loop compute the new window |
| DemoViewer.FoundIsNearest | game/client-demo/src/lib.rs:206-214 | the index entry that is found is in the range, and none of the range comes before it in the direction of the search |
| DemoViewer.TryLoadChunks | game/client-demo/src/lib.rs:206-219 | looks up a range of the index in either direction and adds the chunk of the entry; an unreadable chunk or a missing entry changes nothing |
| DemoViewer.DropPassed | game/client-demo/src/lib.rs:242-244 | the loop leaves exactly the last entry up to the tick and everything after it |
| DemoViewer.LoadChunk | game/client-demo/src/lib.rs:206-219 | loading a chunk that overlaps or touches the cached stretch extends the stretch |
| DemoViewer.ChunkOfTick | game/client-demo/src/lib.rs:206-233 | the last chunk that starts at or before a tick holds the last entry at or before the tick |
| DemoViewer.ShowsBracket | game/client-demo/src/lib.rs:239-245 | a correct window starts with the greatest recorded tick up to the tick, followed by the smallest one after it |
| DemoViewer.ShowsEntry | game/client-demo/src/lib.rs:824-833 | and gives the entry of the tick itself, if one was recorded |
| DemoViewer.SeekShows | game/client-demo/src/lib.rs:98-102 | after a seek the window is correct for any tick |
| DemoViewer.NextTickShows | game/client-demo/src/lib.rs:221-245 | one tick after a correct window the window is correct again |
| DemoViewer.AdvanceShows | game/client-demo/src/lib.rs:221-245 | after a jump forward the window is correct exactly if loading at most the next chunk reaches beyond the tick or to the end |
| DemoViewer.BackShows | game/client-demo/src/lib.rs:221-245 | after a jump back it is correct exactly if the cache starts no later than the chunk after the one holding the tick, and playback can then go on from it |
| DemoViewer.StepBackShows | game/client-demo/src/lib.rs:221-245 | a single step back never leaves a hole, and playback can go on from it |
| DemoViewer.SameTickShows | game/client-demo/src/lib.rs:221-245 | nor does looking at the same tick again |
| DemoPlayback.StepIsOneTick | game/client-demo/src/lib.rs:759-772 | a step forward is exactly one tick; a step back is one tick, or stays on the first |
| DemoPlayback.MoveShows | game/client-demo/src/lib.rs:759-772 | a seek shows the tick of its time, a step forward the next tick, and a step back the one before or the first |
| DemoPlayback.PlaybackShows | game/client-demo/src/lib.rs:759-772 | after any run of seeks and single steps in either direction the window agrees with the whole recording around the tick |
| DemoPlayback.PrepareRenderInput | game/client-demo/src/lib.rs:440-495 | with a correct window the frame is rendered from the recorded snapshots around the clock; the intra-tick time is zero behind the last one, else the share of the bracket that has passed, below one tick |
| DemoExport.RangeStep | game/client-demo/src/lib.rs:810-846 | the range grows by the entry of the next tick, if there is one |
| DemoExport.WindowStep | game/client-demo/src/lib.rs:811-822 | in every round of the loop the window shows the entry of the current tick |
| DemoExport.ExportTick | game/client-demo/src/lib.rs:824-843 | the snapshot and the filtered events shown at a tick newer than the recording are all accepted |
| DemoExport.ExportStep | game/client-demo/src/lib.rs:810-846 | one round extends the new recording by exactly the entries of the tick |
| DemoExport.Export | game/client-demo/src/lib.rs:787-847 | the new recording is exactly the part between the ends, without chat if asked for; the recorder turns nothing away; with the left end past the right one it is empty |
| DemoExport.KeepingChatKeepsAll | game/client-demo/src/lib.rs:829-833 | with chat kept the export is the plain restriction |
| Replay.SurvivingStep | game/client-replay/src/replay.rs:51-58 | a call ends the survival of everything out of its window, and of nothing else |
| Replay.GetCut | game/client-replay/src/replay.rs:51-58 | cutting at the saturated window start keeps exactly the entries in the window |
| Replay.Replay.Truncate | game/client-replay/src/replay.rs:51-58 | both maps are cut at the same tick, whichever kind the call was |
| Replay.SnapshotsAfter | game/client-replay/src/replay.rs:60-67 | after any call of either kind the map holds exactly the surviving snapshots |
| Replay.EventsAfter | game/client-replay/src/replay.rs:69-76 | after any call of either kind the map holds exactly the surviving events, in order |
| Replay.Replay.AddSnapshot | game/client-replay/src/replay.rs:60-67 | keeps both over all runs, with a window of 30 seconds |
| Replay.Replay.AddEvent | game/client-replay/src/replay.rs:69-76 | keeps both over all runs, with a window of 30 seconds |
| Replay.Replay.RecordAll | game/client-replay/src/replay.rs:92-101 | recording the buffer anew gives exactly its entries, none turned away |
| Replay.Replay.ToDemo | game/client-replay/src/replay.rs:78-118 | the demo made from the buffer opens as exactly the surviving entries and is kept exactly if there are any; from an empty buffer, exactly when opening what is handed over fails |
| AssetContainer.TouchAllOrdered | game/client-containers/src/container.rs:418-423 | moving used entries to the back keeps keys distinct and the order by last use |
| AssetContainer.EvictionIsExact | game/client-containers/src/container.rs:434-445 | the loop that stops at the first entry to keep removes exactly the expired entries before the default entry |
| AssetContainer.EvictsExpiredPrefix | game/client-containers/src/container.rs:434-445 | in any order of entries the loop removes those up to the first one that is live or the default |
| AssetContainer.ExactIffNoneHidden | game/client-containers/src/container.rs:434-445 | in any order eviction is exact if and only if no expired entry stands behind a live one before the default entry |
| AssetContainer.Container.EvictFront | game/client-containers/src/container.rs:434-445 | the eviction loop, on the map in place, ends after that many entries |
| AssetContainer.EvictsKey | game/client-containers/src/container.rs:395-450 | what one update does to one key: the default and forced entries stay, expired ones before the default entry go |
| AssetContainer.Updated | game/client-containers/src/container.rs:395-450 | the same for all keys, and what expired without being touched since the last update that executed is removed |
| AssetContainer.Container.CheckDefaultLoaded | game/client-containers/src/container.rs:364-387 | the default entry is the only one after its first use, and is loaded once |
| AssetContainer.EvictedIff | game/client-containers/src/container.rs:414-447 | which entry an executed update removes: one that is neither the default nor forced, that the last update found unused for longer than the lifetime, and that stands before the default entry, or the default was forced |
| AssetContainer.OutcomeIs | game/client-containers/src/container.rs:414-449 | what becomes of every single entry: removed, marked as used now, or left as it is |
| AssetContainer.Container.Update | game/client-containers/src/container.rs:395-450 | over all runs: when an update executes, with which lifetime, and which entries are gone, used now or unchanged afterwards, all on the times and counts; nothing changes otherwise, and tasks are left alone |
| AssetContainer.TaskEnds | game/client-containers/src/container.rs:1018-1051 | a finished task leaves the table and is accounted for as failed or as loaded |
| AssetContainer.Container.Poll | game/client-containers/src/container.rs:1018-1051 | a finished task gives the entry at the back or a remembered failure; an unfinished one changes nothing |
| AssetContainer.Container.Continue | game/client-containers/src/container.rs:981-1051 | a missing entry polls its own task, or starts it if fewer than 16 are in flight and it has not failed, or else polls some other task, which ends if it is finished |
| AssetContainer.Container.GetOrDefault | game/client-containers/src/container.rs:970-1062 | returns the entry of the key or else the default entry, marks it as used, and keeps the loading table accounted for |
| AssetContainer.Container.BlockingWaitLoaded | game/client-containers/src/container.rs:1153-1165 | afterwards the key is loaded or failed exactly if it was, its task was running, or one could be started; no other entry is lost |
| AssetContainer.Container.ClearExceptDefault | game/client-containers/src/container.rs:1088-1096 | only the default entry stays, and failures are forgotten |
| PartLoader.PaddedValue | game/client-containers/src/container.rs:1595 | the number of a part can be read back from its padded form |
| PartLoader.PaddedForm | game/client-containers/src/container.rs:1595 | it has at least three characters, and more only if it does not start with 0 |
| PartLoader.ExtensionIs | game/client-containers/src/container.rs:1419-1424 | the extension that is replaced starts at the last dot of the last component, unless that is its first character |
| PartLoader.NoExtension | game/client-containers/src/container.rs:1419-1424 | a last component without a dot has no extension |
| PartLoader.PathsDiffer | game/client-containers/src/container.rs:1419-1424 | parts of different numbers have different paths, exactly if the base name has no extension |
| PartLoader.RunIsUnique | game/client-containers/src/container.rs:1577-1614 | there is only one maximal run of default parts followed by own parts |
| PartLoader.LoadedBound | game/client-containers/src/container.rs:1588-1612 | not more parts can be loaded than there are files, so the loop ends |
| PartLoader.EndlessRun | game/client-containers/src/container.rs:1588-1612 | with an extension in the base name and a file to load no run is maximal: the loop would not end |
| PartLoader.LoadPartList | game/client-containers/src/container.rs:1577-1614 | the loop ends with the maximal run, or with an error exactly if the first part cannot be loaded |
| Deterministic.FollowsStep | src/client/client.rs:3935-4019 | every operation keeps the invariant: a ready snapshot implies a step in flight, requests are submitted in order, and two submissions are separated |
| Deterministic.LockstepStep | src/client/client.rs:3976-4019 | between any two submissions a snapshot was received, later rendered, and the player was ready |
| Deterministic.TicksConserved | src/client/client.rs:3968-3984 | what was submitted and what is queued are the numbers that were asked for since the reset, in order; one where none or zero was asked for |
| Deterministic.RunConserves | src/client/client.rs:3383-3623 | over any run of frames the steps sent and the queue left are the queue before and the numbers asked for in the collected flushes, in order |
| Deterministic.AllTicksAt | src/client/client.rs:3968-3974 | each of these numbers is the requested one, or one where none or zero was requested |
| Deterministic.ResetForgets | src/client/client.rs:3950-3966 | a frame without a game forgets all requests and sends nothing |
| Deterministic.AtMostEveryOtherFrame | src/client/client.rs:3383-3396 | whatever happens, at most every other frame sends a step |
| Deterministic.DrainsInOrder | src/client/client.rs:3594-3623 | with a ready player and prompt snapshots n requests are sent in order in 2n - 1 frames |
| Deterministic.NoFasterDrain | src/client/client.rs:3594-3623 | and in no run in fewer |
| Deterministic.DeterministicRuntime.UpdateReady | src/client/client.rs:3957-3966 | readiness is taken over, or everything is reset without a game; nothing happens when disabled |
| Deterministic.DeterministicRuntime.EnqueueFlush | src/client/client.rs:3968-3974 | the requested number is queued last; one where none or zero is requested |
| Deterministic.DeterministicRuntime.TakePendingFlush | src/client/client.rs:3976-3991 | hands out the oldest request exactly if ready and nothing is in flight |
| Deterministic.DeterministicRuntime.MarkInputsSubmitted | src/client/client.rs:3993-4000 | the request is in flight and the player has to become ready again |
| Deterministic.DeterministicRuntime.MarkSnapshotReceived | src/client/client.rs:4002-4009 | a snapshot counts only while a step is in flight |
| Deterministic.DeterministicRuntime.Reset | src/client/client.rs:3950-3955 | nothing is queued or in flight, and the history starts anew |
| Deterministic.DeterministicRuntime.FinishOutput | src/client/client.rs:4011-4019 | a rendered snapshot ends the step in flight |
| Deterministic.DeterministicRuntime.Collect | src/client/client.rs:3383-3530 | the part of a frame up to the inputs equals its step function |
| Deterministic.DeterministicRuntime.RunFrame | src/client/client.rs:3383-3831 | one frame keeps the invariant, equals the step function, and sends a step only if none is in flight |
| Unpredicted.BracketIsTight | game/client-map/src/client_map.rs:471-480 | no snapshot lies between the bracket and the tick |
| Unpredicted.RatioInterpolates | src/client/client.rs:710-723 | the ratio is in [0, 1) exactly if a later snapshot exists or the tick is that of the last one, and places the time linearly in the bracket |
| Unpredicted.LoweredPlainly | src/client/client.rs:694-708 | the tick is lowered by the distance of the newest two snapshots up to it, or by one where there are not two, never below 0 |
| Unpredicted.LoweringMakesRoom | src/client/client.rs:694-720 | when exactly that leaves a later snapshot to interpolate to |
| Unpredicted.NewestTwoAreRendered | src/client/client.rs:694-720 | while the newest snapshot is younger than its distance to the one before, the frame lies between exactly these two |
| Unpredicted.BracketRatio | src/client/client.rs:710-725 | the computed ratio places the time linearly between the snapshots around the tick, and is a proper ratio exactly up to the last snapshot |
| Unpredicted.GameUnpredicted.TakePrev | game/client-map/src/client_map.rs:471-480 | the previous part is built in place if its tick changed, and the current part stays as it is |
| Unpredicted.GameUnpredicted.TakeCur | game/client-map/src/client_map.rs:481-489 | the same for the current part |
| Unpredicted.GameUnpredicted.FromSnapshots | game/client-map/src/client_map.rs:463-492 | a cached part is what a rebuild would give exactly if its tick changed or the snapshot of that tick is still the one it was built from, hence always if snapshots never change per tick; events are cleared exactly if something was rebuilt; with nothing at or before the tick the previous part stays |
| Unpredicted.GameUnpredicted.RenderBracket | src/client/client.rs:686-731 | from the wanted tick to the state: the lowered tick on the entries, the two snapshots around it the state is built from, and the ratio between them; past the last snapshot the state is built from that one |
| GhostIds.SearchFailsOnlyWhenExhausted | game/client-ghost/src/lib.rs:38-53 | the search ends, and without an id only if there are no more ids left than forbidden ones |
| GhostIds.DrawnIsFresh | game/client-ghost/src/lib.rs:38-53 | an id is allowed and gone from the pool afterwards |
| GhostIds.StableAcrossFrames | game/client-ghost/src/lib.rs:38-58 | the draws of the next frame give the same ids in the same order, as far as both go, exactly if none is rejected |
| GhostIds.AllowedIffNoneTaken | game/client-ghost/src/lib.rs:181-217 | none is rejected exactly if none is taken by a stage or character that was there before the frame: ids given again are not in each other's way |
| GhostIds.IdPool.Search | game/client-ghost/src/lib.rs:39-48 | the loop over the candidates ends with the first allowed one |
| GhostIds.IdPool.NextId | game/client-ghost/src/lib.rs:38-53 | the loop hands out the first allowed id, never one given in this frame, and keeps all ids of the pool distinct |
| GhostIds.IdPool.Swap | game/client-ghost/src/lib.rs:55-58 | the ids given come first in the next frame, in order |
| GhostIds.PlaceInfos | game/client-ghost/src/lib.rs:204-216 | the loop over the infos of a ghost puts each info and its character under one new id |
| GhostIds.PlaceGhost | game/client-ghost/src/lib.rs:181-217 | each info is placed under a new id, with its character in the new stage under the same id, and nothing else changes |
| GhostIds.PlacedIsRendered | game/client-ghost/src/lib.rs:204-216 | the characters of a placed ghost are those of the stages its infos name, and no others |
| GhostIds.RenderGhosts | game/client-ghost/src/lib.rs:168-225 | for every ghost the new stage holds exactly the characters its infos name, under the ids of the infos, which are in the map of infos; nothing else is added or overwritten; the ids given come first in the next frame, and those of the last frame are given again exactly if none of them is taken |
| BindKeys.ReplaceInnerUpperWithUnderscore | game/binds/src/binds.rs:354-366 | the loop puts an underscore before every upper case letter but the first |
| BindKeys.SnakeToCamel | game/binds/src/binds.rs:253-286 | the sliding window with its flag drops underscores and turns what follows into upper case, at any length |
| BindKeys.SnakeRoundTrip | game/binds/src/binds.rs:353-366 | a name without underscores is read back unchanged exactly if it does not start with a lower case letter |
| BindKeys.SnakeCharacters | game/binds/src/binds.rs:354-366 | snake case character by character: the first is lowered, every later upper case letter becomes an underscore and its lower case letter |
| BindKeys.KeyRemoved | game/binds/src/binds.rs:376-378 | the first "Key" in a name is cut out and the rest is treated in the same way |
| BindKeys.NoKeyKept | game/binds/src/binds.rs:376-378 | a name without one stays as it is |
| BindKeys.KeyText | game/binds/src/binds.rs:371-384 | a letter key is printed without the prefix of its name |
| BindKeys.MouseDropped | game/binds/src/binds.rs:290-295 | a "Mouse" in front of a name is dropped, and nothing else |
| BindKeys.KeyRoundTrip | game/binds/src/binds.rs:287-301 | a key is read back from its text exactly if the name sets are unambiguous for it |
| BindKeys.SplitJoined | game/binds/src/binds.rs:251 | splitting at the separator gives the joined texts back |
| BindKeys.KeyListRoundTrip | game/binds/src/binds.rs:249-413 | a key list is read back exactly if it is not empty and the names are unambiguous for each key |
| BindKeys.TextOf | game/binds/src/binds.rs:369-406 | the text of every kind of key; a key without a code has none |
| BindKeys.BindKeysToStr | game/binds/src/binds.rs:353-413 | the printing loop gives the joined texts of the keys |
| BindKeys.BindKeysStrToBindKeys | game/binds/src/binds.rs:249-309 | the parsing loop finds the keys of all parts; no key is an error |
| BindKeys.MousePrefixIsOptional | game/binds/src/binds.rs:290-295 | a mouse button is printed with a prefix and read with and without it |
| SpriteSheets.SingleImg | game/assets-splitting/src/game_split.rs:85-105 | the simple crop is the rectangle, row after row |
| SpriteSheets.ExtendParts | game/assets-splitting/src/emoticon_split.rs:75-115 | splitting one row appends to each part exactly its piece of the row |
| SpriteSheets.SplitSheet | game/assets-splitting/src/skin_split.rs:88-127 | after all rows each part is the crop of its rectangle |
| SpriteSheets.EmoticonFits | game/assets-splitting/src/emoticon_split.rs:75-115 | the branches of the row loop cut out a grid of four by four |
| SpriteSheets.SplitEmoticon | game/assets-splitting/src/emoticon_split.rs:42-135 | an error exactly if the sheet does not divide; else each emoticon is the crop of its cell |
| SpriteSheets.SkinFits | game/assets-splitting/src/skin_split.rs:92-126 | the branches of the row loop cut out the documented rectangles |
| SpriteSheets.SplitSkin | game/assets-splitting/src/skin_split.rs:60-127 | an error exactly if the sheet does not divide; else each part is the crop of its rectangle |
| SpriteSheets.SkinPartSize | game/assets-splitting/src/skin_split.rs:84-152 | the upper parts always have their declared size, the lower ones exactly if the sheet has the declared height |
| SpriteSheets.RowsCount | game/assets-splitting/src/skin_split.rs:84-92 | the file is cut into as many rows as fit into it |
| SpriteSheets.CropByte | game/assets-splitting/src/game_split.rs:85-105 | where every byte of a crop is in the file |
| SpriteSheets.EmoticonByte | game/assets-splitting/src/emoticon_split.rs:69-122 | where every byte of every emoticon is in the file |
| SpriteSheets.RowIsRebuilt | game/assets-splitting/src/skin_split.rs:92-126 | a row whose pieces fill it can be put together again from the parts |
| SpriteSheets.EmoticonsRebuild | game/assets-splitting/src/emoticon_split.rs:69-122 | the emoticons hold the whole sheet, no byte lost |
| SpriteSheets.SkinPartsRebuild | game/assets-splitting/src/skin_split.rs:84-127 | so do the skin parts |

## Left out

- Ticks and their arithmetic wrapping around at 2^64, and `ticks_per_second` times 3 or 30 overflowing: numbers are unbounded except where a cast or a fixed width is named.
- Files of 2^64 bytes or more, and ticks or values that do not fit into what is serialized: the round trip of a file asks for less (`DemoRoundTrip.RecordingFits`).
- Serialization, compression, patching, image and sound decoding, hashing: functions with the stated laws; nothing is said about sizes beyond not being empty.
- Files, temporary files, renaming, HTTP, threads: the channel of the recorder is the sequence of what was sent, a finished demo is its bytes, and loading tasks end when the caller says so.
- Errors of writing and a writer thread that died: the source ignores them as well.
- Playback speed, pausing and rendering: only what a change of the tick does to the window.
- DemoViewer.CheckChunks: not for the tick 2^64 - 1, where the next tick does not exist.
- DemoExport.Export: likewise for a range that ends there.
- DemoPlayback.PrepareRenderInput: likewise, and the intra-tick time in a bracket of 2^32 ticks or more is not stated; it is not the linear one everywhere (`DemoTime.InterpolatesIffNarrow`).
- AssetContainer.Container.Update: for a clock that does not run backwards; with one that does, the order by last use is lost, and eviction is exact only as `AssetContainer.ExactIffNoneHidden` says (`AssetContainer.ExpiredBehindLive` shows such a list).
- Slices that do not fit while reading a demo panic in the source; the model treats them as errors like any other.
- Unpredicted.RatioInterpolates: over reals, without the rounding of floating point numbers.
- GhostIds.RenderGhosts: ghosts whose viewer fails are not in the input, and how iteration orders the characters of a ghost is left to the caller.
- BindKeys.KeyListRoundTrip: for names without `_` and `+`; quotes and escapes of JSON inside a name are not modelled, and `MouseButton::Other` is a name that no set contains.
- SpriteSheets.SplitEmoticon: a sheet of width 0 panics in the source and is excluded; the same holds for skins.
- The blink texture, and all other splitters, containers and sound parts: the same shapes again.
- Prediction, networking, editor, user interface, console commands: no deep invariant, or not part of this model.
