# discodb2: verified core

discodb2 captures CAN traffic, streams it to a browser cockpit, and helps an operator find out what
the bytes mean. This project models the parts of it where a fast, incremental or re-implemented
form must agree with a simple one, and the state machines that run unattended, and proves what each
of them promises. `dafny verify dfyconfig.toml` verifies the whole project.

Methods are proved against specification functions; the modules whose names end in `Laws` say what those
functions mean without using them: at which places of the history the frames stand that a read returns,
which presses the ledger counts, how often two consecutive payloads differ, which byte of a batch holds what.

## What is modelled

**The ring and the incremental message model.** `Ring` is the circular store of frames: five column
arrays, a head, a count and a generation. Its reads are proved against `RingStates`, where a ring is
just the list of frames pushed since the last clear, of which a suffix is retained. `RateBuckets`
keeps arrival rates in 600 one-second buckets reused modulo 600. `Messages` computes the message
rows of a history from scratch. `MessageModel` is the incremental form the cockpit runs on every
snapshot: groups with bucket arrays updated in place, a cursor into the ring, memoised detection,
and a fall-back when a field takes too many values. Its methods are proved against the state machine
in `ModelStates`; `ModelRuns` proves over every interleaving of pushes, clears and syncs that its
rows are those of the computation from scratch, and `ModelRates` says what the rate column means and
when it departs from the exact rate. Detection itself is an arbitrary function of the history.

**Signal geometry.** `Geometry` defines what a bit-level signal means (Intel, or the Motorola
sawtooth as the reflection of a contiguous range) and proves the extractors, the two re-implemented
decoders and the packer against it. `Formula` is the compiler from a geometry to an arithmetic
expression: run collapsing over 32-bit bit helpers, proved to preserve meaning on every payload.

**ISO-TP.** `IsoTp` reassembles multi-frame transfers and is proved against the segmentation of
ISO 15765-2:2016, section 9.6, including what happens to every in-order selection of its frames.

**Wire format, capture files, pipeline.** `Wire` has the binary batch in the backend and in both
TypeScript implementations, `Candump` the capture lines, `Replay` the log player under an arbitrary
clock. `EngineStates` is the capture pipeline as interleaved steps of reader, batcher, clients,
recording and stop; `Engine` updates it in place, one step of a task per method. The theorems
compose: what a client decodes is what the reader accepted, and what is replayed is what was
recorded.

**Analyzers and their packed twins.** `Windows` packs and groups frames; `CoOccurrence`,
`Tagger`, `Checksums`, `ByteProfiles` (bit activity and byte histogram) and `AutoSegmentation` are
proved, frame-based and packed form alike, against counts over consecutive payloads. `Ranks` has the
tie-averaged ranks, exact moments and the zero-order hold.

**Operator state machines.** `Wizard` is the per-trial feedback reducer and the host that owns its
timers and ledger; `RunEngine` is the storyboard executor.

## Where the code departs from its own description

The models follow the code. The departures are stated as theorems:

- Reading the last day by timestamp and reading by cursor agree just when every retained frame asked
  for lies within a day before the newest (`ModelRuns.HistOfExact`); a ring where they differ is
  reachable (`ModelRuns.DayOldIsSkipped`).
- The whole-span rate counts from time 0 when the selection was synced before its first frame
  (`ModelRates.EarlySelectionDistortsTheSpan`), and for a single frame it divides by a microsecond,
  where the rate from scratch divides by a second. `ModelRates.WholeSpanExact` is the exact condition
  on the span, `ModelRates.AllTimeRatesExact` the one on the rows.
- A comment says flow-control frames are ignored during reassembly; one of them ends it
  (`IsoTp.InterruptedTransfer`), and is ignored only after the last consecutive frame
  (`IsoTp.FlowControlIgnoredIff` is the exact condition).
- Lost consecutive frames are to be noticed by their sequence numbers; a loss of any multiple of
  sixteen is not (`IsoTp.SixteenLostUnnoticed`, exact condition `IsoTp.LossIsNoticed`).
- A comment says exactly one feedback or retry timer stays live; a press the phase has no use for
  cancels it (`WizardStates.StalePressDisarms`, exact condition `WizardStates.ArmedUnlessStale`), and
  can strand any series (`WizardStates.SkipStrands`).
- The ledger documents the index of the test a trial belongs to; it is stamped after the index has
  moved on (`WizardStates.StampedAfterAdvance` is the exact condition,
  `WizardStates.SkippedIsStampedNext` an instance in every series).
- A comment says the redundancy of an exclusive-or checksum holds for the sum as well; it does not
  (`Checksums.SumRedundancyFails`, exact condition `Checksums.SumRedundancy`).
- A comment says a checksum changes whenever any payload byte changes; it follows exactly the bytes
  its scheme reads (`Checksums.ChecksumFollowsByte`).
- The capture file is called lossless; the exact condition is `Candump.RecordingIsLossless`.
- A drain that the wire cannot carry ends the batcher task with its frames
  (`EngineStates.FlushSurvives`, `EngineStates.DeadBatcher`); `EngineStates.BackwardsKills` is a run
  that gets there.

## Model

| member | source | states |
|---|---|---|
| `Ring.RawFrameRing.Push` | frontend/cockpit/src/state/ringBuffer.ts:86-100 | A push extends the logical history by the frame, whichever slot it overwrites. |
| `Ring.RawFrameRing.PushMany` | frontend/cockpit/src/state/ringBuffer.ts:103-105 | Pushing many frames extends the history by them in order. |
| `Ring.RawFrameRing.Clear` | frontend/cockpit/src/state/ringBuffer.ts:107-112 | A clear empties the history and advances the generation. |
| `Ring.RawFrameRing.Physical` | frontend/cockpit/src/state/ringBuffer.ts:115-118 | The slot of the l-th retained frame holds exactly that frame. |
| `Ring.RawFrameRing.At` | frontend/cockpit/src/state/ringBuffer.ts:146-149 | Reading position l gives the l-th of the last min(capacity, pushed) frames, and an error outside them. |
| `Ring.RawFrameRing.Stats` | frontend/cockpit/src/state/ringBuffer.ts:165-173 | Size, oldest and newest time are those of the retained frames. |
| `Ring.RawFrameRing.Window` | frontend/cockpit/src/state/ringBuffer.ts:175-200 | A window read returns exactly the retained frames in the time range with the id, in arrival order. |
| `Ring.RawFrameRing.LastSeconds` | frontend/cockpit/src/state/ringBuffer.ts:206-214 | Reading the last seconds is a window read relative to the newest frame; nothing on an empty ring. |
| `RingStates.WindowPlaces` | frontend/cockpit/src/state/ringBuffer.ts:175-200 | A window read gives the frames at exactly the places that are still held, have the wanted identifier and lie in the time range, each once and in order. |
| `RingStates.LastSecondsPlaces` | frontend/cockpit/src/state/ringBuffer.ts:206-214 | The last seconds are exactly the held frames of the identifier not older than that before the newest frame. |
| `Ring.RawFrameRing.CopyAll` | frontend/cockpit/src/state/ringBuffer.ts:251-268 | Copying in at most two contiguous spans yields every retained frame in order, whether or not the ring has wrapped. |
| `Ring.RawFrameRing.CopySelected` | frontend/cockpit/src/state/ringBuffer.ts:270-286 | The per-frame path fills the columns with exactly the selected frames. |
| `Ring.RawFrameRing.WindowPacked` | frontend/cockpit/src/state/ringBuffer.ts:232-287 | Whichever path it takes, the packed window is the columns of the frames the plain window read returns. |
| `Ring.RawFrameRing.LastSecondsPacked` | frontend/cockpit/src/state/ringBuffer.ts:289-296 | The packed form of the last seconds holds the frames of the plain one. |
| `Ring.RawFrameRing.Since` | frontend/cockpit/src/state/ringBuffer.ts:304-318 | A cursor read returns exactly the matching frames pushed from the cursor on, or reports lapped when the cursor is ahead of the ring or behind its oldest frame. |
| `RingStates.SincePlaces` | frontend/cockpit/src/state/ringBuffer.ts:304-318 | A cursor is served exactly while everything from it on is held, and then gives the frames of the identifier at exactly the places from there on. |
| `RingStates.CursorExact` | frontend/cockpit/src/state/ringBuffer.ts:298-318 | Over any pushes and clears that leave the generation unchanged, an old cursor is served exactly when at most the capacity arrived since, and then continues the earlier selection without loss. |
| `RingStates.GenerationTellsClears` | frontend/cockpit/src/state/ringBuffer.ts:82-84 | The generation has changed exactly when some clear happened. |
| `RingStates.RunTells` | frontend/cockpit/src/state/ringBuffer.ts:82-112 | Over any pushes and clears the generation counts the clears, and the history is exactly what was pushed since the last one, in order. |
| `RingStates.CursorAloneIsNotEnough` | frontend/cockpit/src/state/ringBuffer.ts:298-303 | Without the generation a cursor from before a clear can be served and silently miss frames. |
| `Frames.PacksInjective` | frontend/shared/analysis/packed.ts:30-41 | The packed columns determine the frames, so two packings of one window are equal. |
| `Frames.PackedTells` | frontend/shared/analysis/packed.ts:21-41 | The columns hold every frame at its place: flags in bits 0 to 2, payload from byte 8 i on, zeros behind it. |
| `RateBuckets.Bump` | frontend/cockpit/src/protocol/messageModel.ts:110-117 | After any sequence of bumps each bucket carries the tag and tally that the sequence of seconds determines. |
| `RateBuckets.WindowedCount` | frontend/cockpit/src/protocol/messageModel.ts:171-178 | The window sum is the sum of the shares of the seconds that still own their bucket. |
| `RateBuckets.ShareIsExactWhileLive` | frontend/cockpit/src/protocol/messageModel.ts:110-117 | In nondecreasing order a second that still owns its bucket has its full count and an overtaken one has none of it. |
| `RateBuckets.BucketSumExact` | frontend/cockpit/src/protocol/messageModel.ts:171-178 | The bucket sum never exceeds the true count and equals it exactly when every second of the window that was bumped still owns its bucket. |
| `RateBuckets.RecentWindowIsExact` | frontend/cockpit/src/protocol/messageModel.ts:171-178 | A window reaching back less than 600 s from the newest second is counted exactly, despite bucket reuse. |
| `Grouping.GroupIsLatest` | frontend/cockpit/src/protocol/messages.ts:308-345 | A non-empty group counts the frames with its value and ends in the latest of them. |
| `Grouping.SortedUnique` | frontend/cockpit/src/protocol/messageModel.ts:200-202 | Two ascending lists of the same values are equal, so row order does not depend on map order. |
| `Messages.RowsCoverValues` | frontend/cockpit/src/protocol/messages.ts:308-360 | The rows are strictly ascending in the field value, one for exactly the values that occur. |
| `Messages.RowMeaning` | frontend/cockpit/src/protocol/messages.ts:308-345 | Each row counts its value and shows payload, length and time of the latest frame with it. |
| `Messages.ComputeMessages` | frontend/cockpit/src/protocol/messages.ts:279-360 | The from-scratch pass returns the rows of the history, rated over the frames at or after the window edge. |
| `MessageLaws.EveryFrameCounted` | frontend/cockpit/src/protocol/messages.ts:335-350 | Every frame is counted in one row: that of the value its field bits mean, or of -1 when the payload ends before the field. |
| `MessageLaws.PackedIsCounted` | frontend/cockpit/src/protocol/messages.ts:387-390 | A value packed into clear bits of a field inside the payload is the value its frame is counted under, as far as the field can hold it. |
| `MessageLaws.ShortIsCounted` | frontend/cockpit/src/protocol/messages.ts:387-390 | A frame too short for the field is counted in the row of -1. |
| `MessageLaws.FieldBytesHoldBits` | frontend/cockpit/src/protocol/messages.ts:368-374 | The bytes of a field are exactly those that hold one of its bits counted on from the start bit. |
| `MessageLaws.HexWidthIsLeast` | frontend/cockpit/src/protocol/messages.ts:377-379 | The shown width is the least number of hexadecimal digits, one at least, for every value of the field. |
| `MessageLaws.RowsShowField` | frontend/cockpit/src/protocol/messages.ts:323-339 | Every row of a field shows its bytes and its width. |
| `MessageLaws.OneRowWithoutField` | frontend/cockpit/src/protocol/messages.ts:302-318 | Without a field there is one row with every frame counted and the newest shown, and none without frames. |
| `MessageLaws.WindowedRate` | frontend/cockpit/src/protocol/messages.ts:293-298 | The rate of a row is the number of its frames from the window edge on, per second of the window. |
| `MessageLaws.WholeWindowedRate` | frontend/cockpit/src/protocol/messages.ts:304-311 | Without a field the rate counts all frames from the window edge on. |
| `Messages.RateIsTheOnlyDifference` | frontend/cockpit/src/protocol/messageModel.ts:180-203 | Rows over the same history by different rate rules differ in the rate column only. |
| `ModelStates.FoldOverflow` | frontend/cockpit/src/protocol/messageModel.ts:128-164 | Folding frame by frame gives up exactly when the whole has more distinct values than the limit. |
| `MessageModel.GroupTable.AddFrame` | frontend/cockpit/src/protocol/messageModel.ts:128-143 | Folding a frame keeps one valid group per value, none sharing storage, and reports crossing the message limit. |
| `MessageModel.GroupTable.FoldFrames` | frontend/cockpit/src/protocol/messageModel.ts:156-163 | The fold stops at the frame that makes the field too wide and has folded exactly the frames before and including it. |
| `MessageModel.GroupTable.Emit` | frontend/cockpit/src/protocol/messageModel.ts:180-203 | The emitted rows are the rows of the folded frames, in value order. |
| `MessageModel.MessageModel.ResetAll` | frontend/cockpit/src/protocol/messageModel.ts:205-217 | Deselecting forgets all derived state. |
| `ModelLaws.DeselectForgets` | frontend/cockpit/src/protocol/messageModel.ts:205-224 | Without a selection nothing that a later sync reads is kept, and no row is shown. |
| `MessageModel.MessageModel.RebuildState` | frontend/cockpit/src/protocol/messageModel.ts:145-164 | A rebuild folds the whole history into fresh groups, or into none when it is too wide. |
| `MessageModel.MessageModel.AppendDelta` | frontend/cockpit/src/protocol/messageModel.ts:261-276 | An append folds the new frames; the one that overflows counts but drops all groups and does not move the last time. |
| `MessageModel.MessageModel.Detect` | frontend/cockpit/src/protocol/messageModel.ts:225-252 | Detection is repeated on a change of selection, definition or generation, on growth by a quarter, or after five seconds; otherwise the field is remembered. |
| `MessageModel.MessageModel.Regroup` | frontend/cockpit/src/protocol/messageModel.ts:254-287 | Groups are appended to from the cursor, or rebuilt when the key changed or the cursor lapped, or left alone in passthrough. |
| `MessageModel.MessageModel.Sync` | frontend/cockpit/src/protocol/messageModel.ts:220-297 | One sync moves the model by one step of the state machine and returns the rows of the state it leaves. |
| `ModelLaws.HistoryPlaces` | frontend/cockpit/src/protocol/messageModel.ts:95-97 | Detection and rebuild read the frames at exactly the places still held, with identifier and extended flag of the selection, in the day before the newest frame. |
| `ModelLaws.AskedPlaces` | frontend/cockpit/src/protocol/messageModel.ts:260-266 | An append folds exactly the frames from the cursor on with identifier and extended flag of the selection, in order. |
| `ModelLaws.DetectsWhenDue` | frontend/cockpit/src/protocol/messageModel.ts:226-250 | A sync keeps the field it has exactly when selection, definition and session are unchanged, the count has not grown by a quarter and one, and five seconds have not passed; else it takes what detection finds in the history. |
| `ModelLaws.FieldInForce` | frontend/cockpit/src/protocol/messageModel.ts:220-250 | Over every run, the field in force is what detection found in the history at one earlier sync, and every sync since then asked for the same, less than five seconds later, before the count had grown by a quarter. |
| `ModelLaws.BuildsWhenNeeded` | frontend/cockpit/src/protocol/messageModel.ts:252-285 | Groups go on while selection, definition, session and field are the same and nothing from the cursor on was evicted; otherwise they are built from everything the ring holds. |
| `ModelLaws.FoldStopsFirst` | frontend/cockpit/src/protocol/messageModel.ts:155-163 | A fold overflows with the first frame that brings the field to more than 64 values, and counts that frame. |
| `ModelLaws.GivesUpWhenWide` | frontend/cockpit/src/protocol/messageModel.ts:128-164 | On an orderly ring a sync that builds or extends groups gives up exactly when the frames since the place they are built from have more than 64 values, and its count stops at the frame that was one value too many. |
| `ModelLaws.AlwaysCounted` | frontend/cockpit/src/protocol/messageModel.ts:129-149 | Over every orderly run the count of a model that folds is the number of frames it holds. |
| `ModelRuns.HistOfExact` | frontend/cockpit/src/protocol/messageModel.ts:95-97 | Reading a day back by time equals everything retained for the selection exactly when each such frame lies within a day before the newest. |
| `ModelRuns.DayOldIsSkipped` | frontend/cockpit/src/protocol/messageModel.ts:95-97 | A reachable ring fails that condition: two retained frames more than a day apart read back without the older one. |
| `ModelRuns.RebuildFolds` | frontend/cockpit/src/protocol/messageModel.ts:145-164 | On an orderly ring a rebuild holds everything retained, or gives up exactly when that is too wide. |
| `ModelRuns.AppendFolds` | frontend/cockpit/src/protocol/messageModel.ts:261-276 | Appending from the cursor leaves the groups of everything from the last rebuild on, or gives up exactly when that is too wide. |
| `ModelRuns.AlwaysTracked` | frontend/cockpit/src/protocol/messageModel.ts:220-297 | In every reachable state the groups hold exactly the matching frames held at the last rebuild or pushed since, up to the cursor. |
| `ModelRuns.SyncAgreesWithScratch` | frontend/cockpit/src/protocol/messageModel.ts:220-297 | After any orderly run a sync returns the rows of all matching frames since the last rebuild; in passthrough, or when nothing held then was evicted, they equal the rows computed from scratch except for the rate. |
| `ModelRuns.GroupsKeepEvicted` | frontend/cockpit/src/protocol/messageModel.ts:119-126 | A group is the group over what the ring still holds, preceded by exactly its evicted frames. |
| `ModelRates.BucketRate` | frontend/cockpit/src/protocol/messageModel.ts:184-188 | For windows of 1 to 600 s the bucket rate is the exact count of whole seconds over the window, between the sliding rates of one second less and of the window. |
| `ModelRates.LongWindowsLoseFrames` | frontend/cockpit/src/protocol/messageModel.ts:171-178 | A window of 601 s can lose a frame whose bucket was reused. |
| `ModelRates.RunRates` | frontend/cockpit/src/protocol/messageModel.ts:180-203 | After any orderly run every group has a windowed rate within one second of the exact one. |
| `ModelRates.AlwaysSpanned` | frontend/cockpit/src/protocol/messageModel.ts:154-155 | In every reachable state the last time is that of the folded frames, and the first time too unless the last rebuild saw an empty history. |
| `ModelRates.WholeSpanExact` | frontend/cockpit/src/protocol/messageModel.ts:180-188 | Over all time the groups are divided by the true span exactly in the listed cases. |
| `ModelRates.WholeRateExact` | frontend/cockpit/src/protocol/messages.ts:296-298 | Given the same span, the whole-span rate equals the from-scratch one exactly when no frame of the group is older than the span reaches back from now. |
| `ModelRates.AllTimeRatesExact` | frontend/cockpit/src/protocol/messageModel.ts:180-188 | The rows with their all-time rate column equal the from-scratch rows over the same frames if and only if the noted span is right and no frame is older than it reaches back, or it is wrong and every group loses frames in just the making-up proportion; while no frame is too old, the right span alone decides. |
| `ModelLaws.PassthroughRate` | frontend/cockpit/src/protocol/messageModel.ts:290-295 | After giving up, the rate of every row is the number of its frames in the window over its length. |
| `ModelLaws.PassthroughAllTimeRate` | frontend/cockpit/src/protocol/messageModel.ts:166-169 | After giving up, the all-time rate counts over the time from the first to the last frame, one microsecond at least. |
| `ModelLaws.GroupAllTimeRate` | frontend/cockpit/src/protocol/messageModel.ts:180-188 | While folding, the all-time rate is the whole count over the time between the noted first and last time, one microsecond at least. |
| `ModelRates.EarlySelectionDistortsTheSpan` | frontend/cockpit/src/protocol/messageModel.ts:154-155 | A selection synced before its first frame counts over all time before it: 100 s instead of 1 s in the instance. |
| `Geometry.NoDuplicateBits` | frontend/cockpit/src/protocol/decode.ts:37-64 | No bit index occurs twice in the order of a signal, Intel or Motorola. |
| `Geometry.SignalBitOrder` | frontend/cockpit/src/protocol/decode.ts:37-64 | The Intel order counts up from the start bit; the Motorola walk is the reflection of a contiguous range. |
| `Geometry.IntelWalk` | frontend/cockpit/src/protocol/decode.ts:41-44 | Intel bits count up from the start bit. |
| `Geometry.MotorolaWalk` | frontend/cockpit/src/protocol/decode.ts:45-63 | Motorola bits go down within a byte from the start bit, the most significant one, and on to bit 7 of the next byte. |
| `Geometry.ExtractRaw` | frontend/cockpit/src/protocol/decode.ts:67-85 | Extraction returns the two's-complement value of the bits in order. |
| `Geometry.BitOfRawSum` | frontend/cockpit/src/protocol/decode.ts:67-77 | Bit i of the extracted number is the i-th bit of the order. |
| `Geometry.SignedMeaning` | frontend/cockpit/src/protocol/decode.ts:78-84 | Subtracting 2^length when the sign bit is set gives the two's-complement reading. |
| `Geometry.HighestBitIndex` | frontend/cockpit/src/protocol/decode.ts:107-112 | The highest index is at least every bit of the signal and is one of them. |
| `Geometry.DecodeSignal` | frontend/cockpit/src/protocol/decode.ts:98-104 | The decoded value is raw times factor plus offset, truncated exactly when some bit lies past the payload. |
| `Geometry.DecodeRaw` | frontend/shared/analysis/signal-discovery.ts:550-580 | The re-implemented decoder gives the same number as the reference for every geometry. |
| `Geometry.DecodeField` | frontend/shared/analysis/trend-scorer.ts:416-431 | The 8- and 16-bit field decoder agrees with the reference, and refuses exactly the payloads too short for the field. |
| `Geometry.FieldMeaning` | frontend/shared/analysis/trend-scorer.ts:416-431 | A byte is unsigned; two bytes are joined in their order, and lose 65536 when signed and not below 32768. |
| `Geometry.PackSignal` | tools/gen_trace.py:179-190 | Packing in place sets exactly the bits of the wrapped value. |
| `Geometry.BitOfPacked` | tools/gen_trace.py:186-190 | A bit of the packed payload is the old one or the one of the value. |
| `Geometry.PackThenExtract` | tools/gen_trace.py:155-190 | Packing into zeroed in-range bits and extracting returns the value modulo 2^length with the right sign. |
| `Geometry.WrappedIsIdentityWhenRepresentable` | tools/gen_trace.py:183-185 | The wrapped value is the value exactly when it is representable. |
| `Geometry.PackLeavesOthers` | tools/gen_trace.py:179-190 | Every signal without a common bit keeps its value. |
| `Geometry.RunSum` | frontend/cockpit/src/protocol/formula.ts:214-231 | A run of consecutive bits within one byte is a shift and mask of that byte. |
| `Formula.BandOnByte` | frontend/cockpit/src/protocol/formula.ts:38-38 | The 32-bit mask helper keeps the low bits of a byte. |
| `Formula.ShrOnByte` | frontend/cockpit/src/protocol/formula.ts:42-42 | The 32-bit shift helper shifts a byte. |
| `Formula.Chunks` | frontend/cockpit/src/protocol/formula.ts:211-240 | The run-collapsing loop preserves the number the bit order means. |
| `Formula.SignExtension` | frontend/cockpit/src/protocol/formula.ts:245-251 | The conditional of a signed formula is the two's-complement reading. |
| `Formula.SignalToFormula` | frontend/cockpit/src/protocol/formula.ts:202-262 | A formula is produced exactly for geometries of 1 to 52 bits within eight bytes, and evaluates to raw times factor plus offset on every payload. |
| `Formula.ExpressibleIs` | frontend/cockpit/src/protocol/formula.ts:202-205 | The condition on the start and the length says that every bit lies in one of the first eight bytes. |
| `Formula.AffineIs` | frontend/cockpit/src/protocol/decode.ts:98-104 | The physical value is raw times factor plus offset. |
| `IsoTp.ReassembleIsoTp` | frontend/shared/diagnostic.ts:343-407 | The answer is the transfer of the newest single or first frame, or nothing. |
| `IsoTp.Gather` | frontend/shared/diagnostic.ts:374-406 | Consecutive frames are gathered while they are in sequence and bytes are missing; the rest is trimmed. |
| `IsoTpLaws.AnswerTells` | frontend/shared/diagnostic.ts:343-407 | The answer on any frames: nothing without a start; else from the newest one the bytes a single frame announces as far as it has them, or those of a first frame and of the frames after it that come in sequence while bytes are missing, cut to the announced length, with the missing count and the reason for stopping. |
| `IsoTp.Accounted` | frontend/shared/diagnostic.ts:397-406 | Data and expected bytes make up the declared length; complete means nothing is expected. |
| `IsoTp.SegmentationCovers` | frontend/shared/diagnostic.ts:327-331 | The segmentation of ISO 15765-2:2016, section 9.6 cuts a message without loss. |
| `IsoTpLaws.SegmentationBytes` | frontend/shared/diagnostic.ts:329-332 | Every byte of a segmented message: kind and length in the first frame, kind and number modulo sixteen in the others, six and seven bytes of the message each. |
| `IsoTp.RoundTrip` | frontend/shared/diagnostic.ts:343-407 | Every message of 8 to 4095 bytes, segmented as the standard says and preceded by any frames, comes back complete. |
| `IsoTp.PrefixOfTransfer` | frontend/shared/diagnostic.ts:343-407 | Every proper prefix with the first frame gives the prefix of the message and the number of missing bytes. |
| `IsoTp.InterruptionHarmlessIff` | frontend/shared/diagnostic.ts:377-398 | A flow-control or unknown frame, with anything after it that starts no transfer, leaves the answer unchanged if and only if all consecutive frames came before it. |
| `IsoTp.FlowControlIgnoredIff` | frontend/shared/diagnostic.ts:340-341 | Put anywhere among the frames of a message, a flow-control or unknown frame is ignored if and only if it comes after the last one, whatever the comment says. |
| `IsoTp.InterruptedTransfer` | frontend/shared/diagnostic.ts:379-383 | Before that, it ends the transfer with the part that arrived, the number of missing bytes and a note naming the frame. |
| `IsoTp.ForeignFrames` | frontend/shared/diagnostic.ts:74-95 | A flow-control frame has 3 in its first four bits and its status in the next four; an empty frame and one that starts with 4 or more are unknown. |
| `IsoTp.CompleteIffNothingLost` | frontend/shared/diagnostic.ts:377-398 | From any in-order selection of its own frames the result is complete exactly when none was lost, and then the data is the message. |
| `IsoTp.LossIsNoticed` | frontend/shared/diagnostic.ts:384-392 | Whatever frames are lost, the answer is the message up to the first loss with both sequence numbers in the note if and only if the length of that first loss is no multiple of sixteen; otherwise bytes of a later frame follow the part before the loss. |
| `IsoTp.SixteenLostUnnoticed` | frontend/shared/diagnostic.ts:384-392 | An instance at any position: after sixteen lost frames in a row the bytes of the next one take the place of the lost ones. |
| `IsoTp.SingleFrame` | frontend/shared/diagnostic.ts:360-365 | A single frame that carries its bytes comes back as they are. |
| `Wire.EncodesExactly` | backend/discodb2_backend/protocol.py:97-134 | A batch is encoded exactly when it has at most 65535 frames, none before the base nor 2^32 microseconds after it, and the base fits 64 bits. |
| `Wire.BytesOnWire` | backend/discodb2_backend/protocol.py:35-134 | Every byte of an encoded batch: version, replay flag, count and base in twelve bytes, then twenty per frame with offset, identifier, bits 31 and 30 for extended and error, length code, remote flag, two zeros and padded payload. |
| `Wire.FrameReadsBytes` | frontend/cockpit/src/protocol/parseBatch.ts:80-112 | What a decoder reads from any twenty bytes: bits 0 to 28 are the identifier, 31 extended, 30 error, a length code above eight counts as eight, other bits are passed over. |
| `Wire.BatchReadsBytes` | frontend/cockpit/src/protocol/parseBatch.ts:49-79 | What a decoder reads from any header: version, bit 0 of the flags, count and base at their places, and the records behind it. |
| `Wire.DecodeOfEncode` | backend/discodb2_backend/protocol.py:97-186 | Decoding an encoded batch returns the frames with data padded or cut to the length code, the base and the replay flag. |
| `Wire.ParseBatch` | frontend/cockpit/src/protocol/parseBatch.ts:49-114 | The worker accepts exactly version-1 buffers long enough for their count and reads the frames at their offsets. |
| `Wire.DecodeBatchShared` | frontend/shared/protocol.ts:172-232 | The shared decoder reads the same records and leaves the version unchecked. |
| `Wire.RecReadsBytes` | frontend/shared/protocol.ts:172-232 | What the shared decoder reads from any twenty bytes. |
| `Wire.DecodersAgree` | backend/discodb2_backend/protocol.py:166-186 | On everything the backend accepts, all decoders give the same frames; the backend refuses trailing bytes and length codes above eight, the others ignore and clamp them. |
| `Wire.Reencode` | backend/discodb2_backend/protocol.py:118-186 | Re-encoding a decoded batch is the identity exactly on canonical bytes: no reserved bit, zero padding. |
| `Wire.EncodeBatchShared` | frontend/shared/protocol.ts:97-159 | The shared encoder refuses too many records, wrong length codes and negative identifiers with high bits, and writes the header and records into a zeroed buffer. |
| `Wire.SharedBytes` | frontend/shared/protocol.ts:97-159 | Every byte of a record of the shared encoder, with the offset modulo 2^32 and the payload modulo 256. |
| `Wire.PackableIs` | frontend/shared/protocol.ts:97-159 | It refuses exactly length codes outside 0 to 8, and negative identifiers that do not fit in 29 bits. |
| `Wire.EncodersAgree` | frontend/shared/protocol.ts:97-159 | On everything the backend encodes the shared encoder writes the same records. |
| `Wire.WordSplits` | backend/discodb2_backend/protocol.py:87-94 | The identifier word splits back into identifier, extended and error flag, with bit 29 unused. |
| `EngineStates.ReceiveKeeps` | backend/discodb2_backend/engine.py:172-201 | A received frame is queued, or dropped and counted when the queue is full; one that cannot be built ends the reader; all invariants hold. |
| `EngineStates.FlushKeeps` | backend/discodb2_backend/engine.py:204-223 | Recording, encoding and broadcasting a drain keeps conservation, the session's batches, recordings, client histories and the drop count. |
| `EngineStates.BroadcastKeeps` | backend/discodb2_backend/engine.py:235-249 | Offering a batch keeps every client's history and adds the full queues to the drop count. |
| `EngineStates.AlwaysInv` | backend/discodb2_backend/engine.py:95-249 | Over every interleaving of reader, batcher, clients, recording, start and stop: accepted frames are in order those broadcast, lost, drained, queued or discarded; queues stay within 64; delivered and queued batches are a selection of the broadcasts since joining; drops are overflows plus misses. |
| `EngineStates.EndToEnd` | backend/discodb2_backend/engine.py:204-249 | A client present from the session start that missed nothing reads exactly the accepted frames that were broadcast, in order. |
| `EngineStates.FlushSurvives` | backend/discodb2_backend/engine.py:217-221 | The batcher survives a drain exactly when the wire can carry it from its first frame on. |
| `EngineStates.OrderlyDrainSurvives` | backend/discodb2_backend/engine.py:217-221 | A drain in time order, short enough and within 2^32 microseconds, is carried. |
| `EngineStates.BackwardsKills` | backend/discodb2_backend/engine.py:204-223 | A reachable run does lose the batcher: two frames whose times run backwards, drained together in a running session, end it with both lost and nothing sent. |
| `EngineStates.DeadBatcher` | backend/discodb2_backend/engine.py:204-223 | After the batcher has died nothing is broadcast or recorded until the next start. |
| `Engine.Client.PutNowait` | backend/discodb2_backend/engine.py:235-246 | A client queue takes the batch unless it holds 64. |
| `Engine.Engine.AddClient` | backend/discodb2_backend/engine.py:95-98 | A new client joins with an empty queue. |
| `Engine.Engine.RemoveClient` | backend/discodb2_backend/engine.py:100-101 | A leaving client takes its queue with it. |
| `Engine.Engine.Take` | backend/discodb2_backend/engine.py:52-61 | A client's writer takes the oldest batch. |
| `Engine.Engine.Start` | backend/discodb2_backend/engine.py:108-142 | Starting stops a running source first and begins a session. |
| `Engine.Engine.FinishStop` | backend/discodb2_backend/engine.py:144-170 | Stopping discards what is still queued. |
| `Engine.Engine.ReadOne` | backend/discodb2_backend/engine.py:172-201 | The reader stamps, masks and queues one message, or counts an overflow. |
| `EngineLaws.ReaderTakes` | backend/discodb2_backend/engine.py:172-201 | Each message becomes one frame at the end of the queue with its own time or that of its arrival, the low 29 bits of its identifier, and length code, payload and all three flags as given; beyond 100000 it is dropped and counted, and one that is no classic frame ends the reader. |
| `EngineLaws.AcceptedTell` | backend/discodb2_backend/engine.py:172-201 | Over every run the accepted frames of a session tell messages received, in their order. |
| `EngineLaws.ClientReadsMessages` | backend/discodb2_backend/engine.py:172-249 | Over every run, a client that was there at the session start and missed nothing decodes, in order, messages the reader received: time, masked identifier, flags, length code and padded payload. |
| `Engine.Engine.DrainOne` | backend/discodb2_backend/engine.py:225-233 | A drain moves the oldest queued frame. |
| `Engine.Engine.Flush` | backend/discodb2_backend/engine.py:209-221 | A drain is recorded, encoded with its first time as base and broadcast; one that cannot be encoded ends the batcher. |
| `Engine.Engine.OfferAll` | backend/discodb2_backend/engine.py:239-245 | Every client is offered the batch once, in whatever order, and each refusal is counted. |
| `EngineLaws.BroadcastReaches` | backend/discodb2_backend/engine.py:235-249 | A broadcast is queued for every client with fewer than 64 batches waiting; each other one misses it and adds one to the drops. |
| `EngineLaws.FlushSettles` | backend/discodb2_backend/engine.py:204-223 | Every drain ends: the drained frames are in the session's batches or lost with the batcher, and nothing is under way. |
| `EngineLaws.SessionSteps` | backend/discodb2_backend/engine.py:108-170 | A start has both tasks alive, a requested stop ends the batcher at once, and a finished one discards exactly what was queued. |
| `EngineLaws.NothingIsStuck` | backend/discodb2_backend/engine.py:172-249 | In every state that keeps the invariants, each task that is alive has a step it can take. |
| `Engine.Engine.RecordStop` | backend/discodb2_backend/recorder.py:73-104 | A finished recording is exactly what was drained since it started. |
| `WizardFsm.AlwaysInBounds` | frontend/shared/wizard-fsm.ts:157-320 | With positive targets every reachable live state is short of both, done means the target was met exactly, and an abandoned one has a silence at the guard or none. |
| `WizardFsm.EndsForGood` | frontend/shared/wizard-fsm.ts:246-250 | Nothing happens after the end, and before it abandon ends a live series for good. |
| `WizardStates.AlwaysInv` | frontend/cockpit/src/hunt/wizardHost.ts:183-343 | On every run the cue watchdog is armed exactly while cueing, the generic timer only for the event its phase awaits, good ledger entries equal the good count, and good plus skipped equals the tests left behind. |
| `WizardStates.StalePressDisarms` | frontend/cockpit/src/hunt/wizardHost.ts:245-247 | A press a timed phase has no use for changes nothing but cancels its timer: then no firing can end the phase. |
| `WizardStates.ArmedUnlessStale` | frontend/cockpit/src/hunt/wizardHost.ts:237-260 | A timed phase has its timer exactly when no stale press came since it was entered. |
| `WizardStates.SkipStrands` | frontend/cockpit/src/hunt/wizardHost.ts:245-247 | It happens in every series: skip pressed while the first feedback is awaited leaves a live series that no firing ever changes again. |
| `WizardStates.StampedAfterAdvance` | frontend/cockpit/src/hunt/wizardHost.ts:238-275 | A trial is stamped with the index of the next test exactly when it is skipped, or good without completing the series. |
| `WizardStates.SkippedIsStampedNext` | frontend/cockpit/src/hunt/wizardHost.ts:238-275 | In every series the skipped first test, of index 0, is entered in the ledger as test 1. |
| `WizardStates.Round` | frontend/shared/wizard-fsm.ts:157-240 | Three firings take an unattended test from cue to cue with one more silence, or to abandonment by the guard. |
| `WizardStates.UnattendedAbandons` | frontend/shared/wizard-fsm.ts:157-240 | From cueing with silence k an input-free series is abandoned by the guard after exactly 3 (guard - k) firings, and not before. |
| `WizardHosts.WizardHost.Begin` | frontend/cockpit/src/hunt/wizardHost.ts:183-195 | Every start begins from the initial state. |
| `WizardLaws.BeginDoes` | frontend/cockpit/src/hunt/wizardHost.ts:183-195 | A begun series stands cueing before its first test with an empty ledger, or is done when there is none to do. |
| `WizardLaws.ActiveOnceBegun` | frontend/cockpit/src/hunt/wizardHost.ts:183-222 | Over every run the host is active exactly when a series was begun since the last reset; before that it is as it was made. |
| `WizardHosts.WizardHost.Dispatch` | frontend/cockpit/src/hunt/wizardHost.ts:237-260 | Dispatching applies the reducer, cancels the generic timer for everything but timeouts and the end of the cue, applies the effects in order and clears all timers at the end. |
| `WizardLaws.PressDoes` | frontend/shared/wizard-fsm.ts:157-320 | A press the phase has no use for changes at most the timer; any other resets the silence, enters its own outcome in the ledger, and moves to the next test only on a skip or a success short of the target, so a failed test is repeated. |
| `WizardLaws.FiringDoes` | frontend/shared/wizard-fsm.ts:157-240 | A firing leads from cue to feedback, from feedback to the retry prompt, and from there, with one more silence, to the cue again or to abandonment by the guard. |
| `WizardLaws.EffectsTell` | frontend/shared/wizard-fsm.ts:157-320 | Each effect of a step tells a change of the state: cue, timers, repetition or advance of the test, end, and the outcome to be recorded. |
| `WizardLaws.CountsTell` | frontend/cockpit/src/hunt/wizardHost.ts:183-283 | Over every run good, failed and skipped entries number exactly the success, fail and skip presses answered in their phase, the silence is the number of retry prompts that ran out since the last answer, and the test is the one the good and skipped trials lead to. |
| `WizardHosts.WizardHost.ApplyEffect` | frontend/cockpit/src/hunt/wizardHost.ts:262-291 | Each effect arms a timer, plays the cue or records a trial. |
| `WizardHosts.WizardHost.OnTimer` | frontend/cockpit/src/hunt/wizardHost.ts:318-324 | An elapsed timer is gone before its event is dispatched. |
| `WizardHosts.WizardHost.OnCueWatchdog` | frontend/cockpit/src/hunt/wizardHost.ts:301-316 | The elapsed watchdog ends the cue. |
| `WizardHosts.WizardHost.Reset` | frontend/cockpit/src/hunt/wizardHost.ts:215-222 | A reset returns to idle without recording. |
| `WizardHosts.WizardHost.Tally` | frontend/cockpit/src/hunt/wizardHost.ts:133-139 | The snapshot counts failed and skipped trials of the ledger. |
| `RunStates.ScenarioPhases` | frontend/cockpit/src/protocol/datamodel.ts:301-311 | A scenario unrolls to its three opening steps, the loop steps of every repetition, and the closing step. |
| `RunStates.UnrolledAt` | frontend/cockpit/src/protocol/datamodel.ts:308-308 | Step j of repetition r is at its expected place with its repetition number. |
| `RunLaws.PhasesInOrder` | frontend/cockpit/src/protocol/datamodel.ts:301-311 | Step j of repetition r stands at place 3 + (r - 1) n + j and carries the repetition; a negative count counts as none. |
| `RunLaws.PhasesAround` | frontend/cockpit/src/protocol/datamodel.ts:301-311 | Baseline, noise and wait open every scenario and the recovery closes it, without repetition number. |
| `RunStates.TickTick` | frontend/cockpit/src/logbook/runEngine.ts:120-134 | Ticking at a and then at b, with a no later than b, leaves the same state as ticking at b. |
| `RunStates.ManyTicks` | frontend/cockpit/src/logbook/runEngine.ts:120-134 | Any number of earlier ticks makes no difference. |
| `RunStates.WindowsAlwaysAbut` | frontend/cockpit/src/logbook/runEngine.ts:79-146 | Over every run the windows carry a prefix of the phases in order, abut from the start time, and give each phase the clock closed exactly its duration. |
| `RunStates.AlwaysForward` | frontend/cockpit/src/logbook/runEngine.ts:79-146 | On a forward clock no window ends before it begins or after the present. |
| `RunEngines.RunEngine.Tick` | frontend/cockpit/src/logbook/runEngine.ts:120-134 | The guarded loop advances through every due phase: the guard never cuts one short. |
| `RunLaws.TickSettles` | frontend/cockpit/src/logbook/runEngine.ts:120-134 | A tick closes one phase after another, each at the end of its duration, while one has run out; afterwards none has. |
| `RunEngines.RunEngine.Advance` | frontend/cockpit/src/logbook/runEngine.ts:91-99 | Advancing stamps the window and starts the next phase at its end, or is done. |
| `RunEngines.RunEngine.Confirm` | frontend/cockpit/src/logbook/runEngine.ts:135-138 | A confirmation closes an input phase now and is ignored otherwise. |
| `RunLaws.ConfirmEnds` | frontend/cockpit/src/logbook/runEngine.ts:135-138 | A confirmed input phase ends at the moment of the confirmation and the next begins there; in any other phase nothing happens. |
| `RunEngines.RunEngine.Stop` | frontend/cockpit/src/logbook/runEngine.ts:139-146 | Stopping stamps the partial window. |
| `RunLaws.StopStamps` | frontend/cockpit/src/logbook/runEngine.ts:139-146 | A stop stamps the running phase from its start to the moment of the stop. |
| `RunEngines.RunEngine.Start` | frontend/cockpit/src/logbook/runEngine.ts:113-119 | A start forgets earlier windows. |
| `RunLaws.StartBegins` | frontend/cockpit/src/logbook/runEngine.ts:113-119 | A start runs the first phase from its own moment with nothing stamped. |
| `Candump.ParseOfFormat` | backend/discodb2_backend/candump_log.py:54-130 | Parsing a printed line gives the time, identifier and payload, extended exactly when flagged or beyond 11 bits, remote frames with their length code. |
| `Candump.RecordReplay` | backend/discodb2_backend/candump_log.py:54-130 | Printing and parsing are inverse on every entry that parsing can produce. |
| `Candump.PrintingIsStable` | backend/discodb2_backend/candump_log.py:84-130 | Printing what any line parses to and parsing again changes nothing. |
| `CandumpLaws.LineTells` | backend/discodb2_backend/candump_log.py:84-130 | A line is skipped exactly when nothing or a comment is left of it without outer white space, and read as an entry exactly when it has the parts of the grammar and they say that entry: seconds and millionths, low 29 bits of the identifier, extended by more than three digits or by value, bytes or a remote length code, eight at most. |
| `CandumpLaws.LinePrinted` | backend/discodb2_backend/candump_log.py:54-81 | A printed line is time with six digits of microseconds, interface, upper-case identifier of eight digits when extended or beyond 11 bits and three otherwise, and the bytes up to the length code or R with it. |
| `CandumpLaws.MicrosAre` | backend/discodb2_backend/candump_log.py:99-100 | Digits after the point count as a decimal fraction in microseconds, cut after six. |
| `CandumpLaws.CharactersAre` | backend/discodb2_backend/candump_log.py:34-38 | Hexadecimal digits are read in either case with their values, and nothing else is one; white space is the ASCII one. |
| `Candump.RecordingIsLossless` | backend/discodb2_backend/candump_log.py:54-81 | A recorded frame is read back as the same frame if and only if it is no error frame, carries exactly the bytes its length code announces (none when remote), and an identifier beyond 11 bits is flagged. |
| `Candump.TimeMatches` | backend/discodb2_backend/candump_log.py:69-69 | The printed time is six padded digits of microseconds and parses back. |
| `Candump.IdValue` | backend/discodb2_backend/candump_log.py:72-75 | The printed identifier has more than three digits exactly when extended or beyond 11 bits. |
| `Candump.DataOf` | backend/discodb2_backend/candump_log.py:109-122 | A parsed data frame has as many bytes as its length code, a remote one none, and never more than eight. |
| `Replay.EveryEntryOncePerLap` | backend/discodb2_backend/adapters/replay.py:50-86 | Under any clock the messages given are whole laps of the log in order and a prefix of the current one; without looping a single lap. |
| `Replay.GapsAreKept` | backend/discodb2_backend/adapters/replay.py:50-86 | Over every run and clock, message a of lap k is entry a of the log on the time base of that lap, so the messages of a lap are as far apart as in the log. |
| `Replay.NeverEarly` | backend/discodb2_backend/adapters/replay.py:50-86 | In real time, over every run, no message is given before its scheduled time: the start of its lap on the wall clock plus its offset in the log. |
| `Replay.AnswersWhenDue` | backend/discodb2_backend/adapters/replay.py:62-75 | A call gives nothing if and only if the log is exhausted for good or its next entry is not due yet. |
| `Replay.ReplayBus.Recv` | backend/discodb2_backend/adapters/replay.py:50-81 | One call gives the next entry when due, restarting a looping log first. |
| `Replay.ReplayOfRecording` | backend/discodb2_backend/adapters/replay.py:38-48 | A recorded file parses to one entry per frame, and a lap gives each whole frame back, all moved by the same time. |
| `Windows.FramesToPacked` | frontend/shared/analysis/packed.ts:81-99 | The columns hold the frames with payloads cut to eight bytes and zero padding. |
| `Windows.ClampedTells` | frontend/shared/analysis/packed.ts:81-99 | Every column of a packed frame of any length: time, identifier, the three flag bits, at most eight bytes modulo 256, zeros behind them. |
| `Windows.GroupById` | frontend/shared/analysis/packed.ts:108-125 | Values are filed per identifier in arrival order, identifiers in order of first appearance, filtered by a non-empty allow-list. |
| `Windows.AllowedIs` | frontend/shared/analysis/packed.ts:108-125 | An identifier is let through exactly when it is in the list or the list is empty. |
| `TaggerLaws.OrderPlaces` | frontend/shared/analysis/packed.ts:108-125 | The identifiers stand where they occur first, in that order, each once. |
| `TaggerLaws.FiledPlaces` | frontend/shared/analysis/packed.ts:108-125 | A group holds exactly what was filed under its identifier, in order of arrival. |
| `Windows.SamePayloads` | frontend/shared/analysis/packed.ts:81-125 | The index lists of a packed window stand for exactly the payload lists of its frames. |
| `CoOccurrence.CountLaws` | frontend/shared/analysis/co-occurrence.ts:150-170 | Both tallies are symmetric, a change needs presence, and two bytes are both present just when the higher one is. |
| `CoOccurrence.JaccardDenominator` | frontend/shared/analysis/co-occurrence.ts:473-477 | The Jaccard denominator is the number of pairs in which either byte changed. |
| `CoOccurrence.RatiosInRange` | frontend/shared/analysis/co-occurrence.ts:467-482 | Both ratios lie between 0 and 1; the coupling is 1 exactly when the bytes only ever changed together. |
| `CoOccurrence.Tallies.Couples` | frontend/shared/analysis/co-occurrence.ts:454-465 | One pair adds one to both mirrored cells of every two bytes carried, respectively changed, by both frames. |
| `CoOccurrence.ProfileCounts` | frontend/shared/analysis/co-occurrence.ts:422-466 | The frame-based tally counts over all consecutive pairs. |
| `CoOccurrence.JsCoocTally` | frontend/shared/analysis/co-occurrence.ts:256-299 | The flat bitmask tally counts the same. |
| `CoOccurrence.ChangeMask` | frontend/shared/analysis/co-occurrence.ts:274-286 | The mask has exactly the bits of the changed bytes. |
| `CoOccurrence.ProfileCountsPacked` | frontend/shared/analysis/co-occurrence.ts:514-550 | The packed counts are those of the payloads behind the indices. |
| `CoOccurrence.DeriveRatios` | frontend/shared/analysis/co-occurrence.ts:467-482 | The matrices hold the coupling and the conditional share off the diagonal and 0 on it. |
| `CoOccurrence.FindGroups` | frontend/shared/analysis/co-occurrence.ts:601-636 | The groups are exactly the maximal runs of tightly linked neighbours, left to right, with their weakest link and whether a tagged byte is in them. |
| `CoOccurrence.GroupsUnique` | frontend/shared/analysis/co-occurrence.ts:601-636 | The groups are determined by the couplings. |
| `CoOccurrence.ProfileOneId` | frontend/shared/analysis/co-occurrence.ts:422-506 | The profile of one identifier from its payloads. |
| `ProfileLaws.ProfileTellsByte` | frontend/shared/analysis/co-occurrence.ts:422-506 | A profile counts, for every byte, the consecutive pairs of payloads that carry it and those in which it differs. |
| `ProfileLaws.ProfileTellsPair` | frontend/shared/analysis/co-occurrence.ts:454-482 | For two bytes it counts the pairs that carry both and those in which both differ; the coupling is their share of the pairs in which either differs, the conditional their share of those in which the first differs. |
| `ProfileLaws.GroupsTellNeighbours` | frontend/shared/analysis/co-occurrence.ts:601-636 | Two neighbouring bytes are in one group exactly when their coupling reaches the threshold. |
| `ProfileLaws.GroupTells` | frontend/shared/analysis/co-occurrence.ts:601-636 | A group names its weakest coupling, and is marked exactly when an excluded byte is in it. |
| `CoOccurrence.ProfileOneIdPacked` | frontend/shared/analysis/co-occurrence.ts:514-585 | The profile of one identifier from a packed window. |
| `CoOccurrence.PackedProfileAgrees` | frontend/shared/analysis/co-occurrence.ts:373-395 | The packed and the frame-based profile of the same frames are equal. |
| `Tagger.DetectCounter` | frontend/shared/analysis/tagger.ts:308-335 | The tally loop finds the most frequent nonzero step, the earliest seen among equals, and its share of the transitions. |
| `Tagger.HitMeaning` | frontend/shared/analysis/tagger.ts:308-335 | A hit has a nonzero step, no other nonzero step is more frequent, and its confidence is between the threshold and 1. |
| `TaggerLaws.DetectedIff` | frontend/shared/analysis/tagger.ts:308-335 | A column is a counter exactly with enough transitions and some step other than 0, modulo m, whose share of the transitions reaches the threshold. |
| `TaggerLaws.CounterTells` | frontend/shared/analysis/tagger.ts:308-335 | The step is the most frequent one other than 0, of equally frequent ones the one taken first, and the confidence is its share of the transitions. |
| `Tagger.BestCounter` | frontend/shared/analysis/tagger.ts:286-293 | The reading with the highest confidence wins, the earlier on a tie. |
| `Tagger.BestIsFirstHighest` | frontend/shared/analysis/tagger.ts:286-293 | No reading is more confident than the chosen one, every earlier one is less so, and none is chosen only when there is none. |
| `Tagger.ColumnAtPacked` | frontend/shared/analysis/tagger.ts:498-504 | The packed column is the column of the payloads. |
| `TaggerLaws.CarrierPlaces` | frontend/shared/analysis/tagger.ts:258-264 | The column has the byte of exactly the payloads that carry it, in order. |
| `TaggerLaws.CounterTagTells` | frontend/shared/analysis/tagger.ts:225-251 | A byte has a counter tag exactly when the byte modulo 256 or a nibble modulo 16 reads as a counter; it is the most confident reading, of equals the whole byte before the low and the high nibble. |
| `Tagger.SteadyCounter` | frontend/shared/analysis/tagger.ts:308-335 | A constant nonzero step modulo m of enough length is detected with confidence 1. |
| `Tagger.SteadyByteIsTaggedWhole` | frontend/shared/analysis/tagger.ts:225-251 | Such a byte is tagged once, as a whole byte with that step and confidence 1. |
| `Checksums.ComputeChecksum` | frontend/shared/analysis/tagger.ts:417-455 | The loops compute exclusive or, sum and CRC over the bytes their scheme covers. |
| `Checksums.ComputeChecksumPacked` | frontend/shared/analysis/tagger.ts:546-575 | The packed computation gives the same value. |
| `Checksums.XorMatchIff` | frontend/shared/analysis/tagger.ts:357-362 | A byte is the exclusive or of all others exactly when the whole payload's is 0. |
| `ChecksumLaws.XorIsParity` | frontend/shared/analysis/tagger.ts:419-430 | Each bit of the exclusive or is the parity of that bit over the bytes. |
| `Checksums.XorRedundancy` | frontend/shared/analysis/tagger.ts:357-362 | If one byte is the exclusive or of all others, every byte is. |
| `Checksums.SumRedundancy` | frontend/shared/analysis/tagger.ts:357-359 | For the sum another byte matches exactly when it agrees with the first modulo 128. |
| `Checksums.SumRedundancyFails` | frontend/shared/analysis/tagger.ts:357-359 | A payload in which one byte is the sum of the others and another is not. |
| `Checksums.CrcLinear` | frontend/shared/analysis/tagger.ts:446-455 | The CRC of the bytewise difference of two payloads is the difference of their CRCs, so they collide if and only if the CRC of the difference is 0. |
| `Checksums.CrcValues` | frontend/shared/analysis/tagger.ts:446-455 | The CRC of no bytes is 0, that of the byte 1 is 0x1D, doubling a byte doubles its CRC or adds 0x1D for the bit shifted out, and each further byte is added before its CRC is taken: with linearity this fixes every value. |
| `Checksums.ChecksumFollowsByte` | frontend/shared/analysis/tagger.ts:18-22 | Under every scheme the checksum changes with a single byte of the payload if and only if the scheme reads that byte: the prefix schemes do not follow the bytes behind their target. |
| `Checksums.TrailingPrefix` | frontend/shared/analysis/tagger.ts:349-352 | For the last byte the prefix scheme and the full scheme compute the same value. |
| `ChecksumTags.ChosenIsBest` | frontend/shared/analysis/tagger.ts:382-402 | The chosen scheme qualifies and no tried scheme scores higher. |
| `ChecksumLaws.HitTells` | frontend/shared/analysis/tagger.ts:374-402 | A byte hits only when enough payloads carry it, one of them has another byte and it varies; then by the scheme that fits the largest share of them if that reaches the threshold, of equals by the first in the order of preference. |
| `ChecksumLaws.HitsAre` | frontend/shared/analysis/tagger.ts:373-404 | The list of hits holds the hit of each byte that has one, and nothing else. |
| `ChecksumLaws.ChecksumTagTells` | frontend/shared/analysis/tagger.ts:404-414 | A hit is reported exactly when its scheme reads only the bytes before it, or no hit is of that kind and it is the highest. |
| `ChecksumTags.DetectChecksums` | frontend/shared/analysis/tagger.ts:370-414 | Detection resolves the hits of all testable bytes. |
| `ChecksumTags.DetectChecksumsPacked` | frontend/shared/analysis/tagger.ts:507-543 | The packed detection gives the same tags. |
| `ChecksumTags.ChecksumShape` | frontend/shared/analysis/tagger.ts:404-414 | All tags are asymmetric, or there is at most one, symmetric, at the highest byte that hit. |
| `ChecksumTags.XorMessageIsResolved` | frontend/shared/analysis/tagger.ts:353-369 | When every payload has exclusive or 0 and one width, every byte matches the symmetric scheme, yet the last is tagged by the prefix scheme with confidence 1 and all tags are asymmetric. |
| `ChecksumTags.TagOneId` | frontend/shared/analysis/tagger.ts:206-222 | The tags of one identifier over its most recent frames. |
| `ChecksumTags.TagOneIdPacked` | frontend/shared/analysis/tagger.ts:468-480 | The packed tags are those of the payloads behind the indices. |
| `ChecksumLaws.TagsTell` | frontend/shared/analysis/tagger.ts:206-222 | Of the latest frames within the limit the tags are the counters of all bytes that occur, then the checksums, either in ascending order. |
| `ChecksumTags.PackedTagsAgree` | frontend/shared/analysis/tagger.ts:166-183 | Packed and frame-based tags of the same frames are equal. |
| `BitActivity.ProfileBits` | frontend/shared/analysis/bit-activity.ts:222-262 | Flips and comparable pairs per bit, rates, and constancy only with evidence. |
| `ProfileLaws.BitProfileTells` | frontend/shared/analysis/bit-activity.ts:222-262 | Each bit is compared in the consecutive pairs that carry its byte below the cap; its activity is the share in which it differs, and it is constant exactly when compared and never different. |
| `BitActivity.ProfileBitsPacked` | frontend/shared/analysis/bit-activity.ts:270-302 | The packed profile is that of the payloads behind the indices. |
| `BitActivity.PackedBitsAgree` | frontend/shared/analysis/bit-activity.ts:176-195 | Packed and frame-based bit profiles of the same frames are equal. |
| `BitActivity.ByteMovesIffBitFlips` | frontend/shared/analysis/bit-activity.ts:238-248 | A byte changes between two frames exactly when one of its bits flips. |
| `ByteHistogram.HistogramByte` | frontend/shared/analysis/byte-histogram.ts:259-276 | Counts, samples, distinct values and extremes of one byte over the frames that carry it. |
| `TaggerLaws.TallyCounts` | frontend/shared/analysis/byte-histogram.ts:259-276 | The count of a value is the number of samples with it. |
| `ByteHistogram.HistogramBytePacked` | frontend/shared/analysis/byte-histogram.ts:286-315 | The packed histogram is that of the payloads behind the indices. |
| `ByteHistogram.PackedHistogramAgrees` | frontend/shared/analysis/byte-histogram.ts:204-224 | Packed and frame-based histograms of the same frames are equal. |
| `ByteHistogram.CountsSum` | frontend/shared/analysis/byte-histogram.ts:269-271 | The counts add up to the samples. |
| `ByteHistogram.DistinctIsSetSize` | frontend/shared/analysis/byte-histogram.ts:269-269 | The distinct count is the number of values that occur. |
| `ByteHistogram.Least` | frontend/shared/analysis/byte-histogram.ts:272-272 | The minimum is a sampled value and none is smaller; -1 without samples. |
| `ByteHistogram.Greatest` | frontend/shared/analysis/byte-histogram.ts:273-273 | The maximum is a sampled value and none is greater; -1 without samples. |
| `Ranks.TrendRanks` | frontend/shared/analysis/trend-scorer.ts:495-509 | Whatever order the sort leaves ties in, every element gets the number below it plus half of one more than its equals. |
| `Ranks.AverageRanks` | frontend/shared/analysis/signal-correlation.ts:683-699 | The other implementation gives the same ranks. |
| `Ranks.RanksSum` | frontend/shared/analysis/trend-scorer.ts:495-509 | The ranks add up to n (n + 1) / 2. |
| `Ranks.RanksInvariant` | frontend/shared/analysis/trend-scorer.ts:452-455 | Ranks do not change under any rescaling that keeps the order. |
| `Ranks.RanksReversed` | frontend/shared/analysis/trend-scorer.ts:452-455 | Turning the order round turns the ranks round. |
| `Ranks.PearsonMoments` | frontend/shared/analysis/trend-scorer.ts:465-487 | The two passes compute the exact moments about the means. |
| `Ranks.CauchySchwarz` | frontend/shared/analysis/trend-scorer.ts:486-486 | The squared co-moment is at most the product of the moments. |
| `Ranks.CorrelationBounded` | frontend/shared/analysis/trend-scorer.ts:485-486 | The correlation lies between -1 and 1. |
| `Ranks.UndefinedIffConstant` | frontend/shared/analysis/signal-correlation.ts:723-726 | A moment is 0 exactly when its series is constant. |
| `Ranks.SameOrderPerfect` | frontend/shared/analysis/trend-scorer.ts:456-462 | Series in the same order have rank correlation 1. |
| `Ranks.ReverseOrderPerfect` | frontend/shared/analysis/trend-scorer.ts:456-462 | Series in opposite order have rank correlation -1. |
| `Ranks.ZeroOrderHold` | frontend/shared/analysis/signal-correlation.ts:531-545 | Each reference sample is paired with the latest candidate value at or before it, and dropped before the first. |
| `Ranks.HeldTells` | frontend/shared/analysis/signal-correlation.ts:531-545 | The pairs are those of exactly the reference samples not before the first candidate, in order, each with the latest candidate value at or before it. |
| `Ranks.PassedIsPrefix` | frontend/shared/analysis/signal-correlation.ts:531-545 | In an ascending series the samples at or before a time are a prefix. |
| `AutoSegmentation.MeasureActivity` | frontend/shared/analysis/auto-segmentation.ts:177-190 | The activity of a byte is its change frequency over the pairs that carry it. |
| `ProfileLaws.ActivityTells` | frontend/shared/analysis/auto-segmentation.ts:177-190 | The activity of a byte is the share of the consecutive pairs carrying it in which it differs. |
| `AutoSegmentation.ActivityInRange` | frontend/shared/analysis/auto-segmentation.ts:177-190 | Every activity is between 0 and 1. |
| `AutoSegmentation.SegmentBytes` | frontend/shared/analysis/auto-segmentation.ts:192-229 | The segments are ordered, disjoint, cover exactly the active bytes, step one way by the margin and cannot be extended right. |
| `AutoSegmentation.SegmentOneId` | frontend/shared/analysis/auto-segmentation.ts:167-232 | The segmentation of one identifier from its payloads. |
| `ProfileLaws.SegmentsCoverActive` | frontend/shared/analysis/auto-segmentation.ts:192-227 | A byte is in a segment exactly when its activity reaches the floor and it is not excluded. |
| `ProfileLaws.SegmentSteps` | frontend/shared/analysis/auto-segmentation.ts:205-227 | Every step within a segment falls, or rises, to at most the ratio of the larger activity; it ends before a byte that is inactive, or to which the step does not go on. |
| `AutoSegmentation.SegmentationUnique` | frontend/shared/analysis/auto-segmentation.ts:196-229 | The segmentation is determined by the profile. |
| `AutoSegmentation.StrictByMargin` | frontend/shared/analysis/auto-segmentation.ts:206-214 | With a positive activity floor and a ratio below 1 every step is strict, by the margin. |
| `AutoSegmentation.ConfidenceByMargin` | frontend/shared/analysis/auto-segmentation.ts:238-250 | Every multi-byte confidence is between 1 - ratio and 1; a lone byte gets a half. |
| `AutoSegmentation.SegmentConfidence` | frontend/shared/analysis/auto-segmentation.ts:238-250 | The confidence is the clamped mean drop over steps from a positive activity. |
| `ProfileLaws.ConfidenceIsMean` | frontend/shared/analysis/auto-segmentation.ts:238-250 | The confidence is the mean of the drops cut to the range from 0 to 1, and a half when there are none. |
| `ProfileLaws.DropsAdd` | frontend/shared/analysis/auto-segmentation.ts:242-248 | Each further step from a positive activity adds one drop: 1 less the smaller activity over the larger. |

## Left out

- Messages.ComputeMessages: a window of zero seconds is excluded, where JavaScript would give an infinite rate; the message model never passes one.
- Messages.RateIsTheOnlyDifference: does not say when the rates are equal; `ModelRates.BucketRate` and `ModelRates.AllTimeRatesExact` do.
- ModelRuns.SyncAgreesWithScratch: does not equate the rate column, which the two forms compute differently.
- ModelRates.EarlySelectionDistortsTheSpan: is one instance with a detector that finds no field; `ModelRates.WholeSpanExact` is the general condition.
- Messages.RowsCoverValues: field values are exact integers, where JavaScript rounds those of fields wider than 53 bits from 2^53 on and so merges neighbouring values.
- Geometry.PackSignal: starts from the raw integer; dividing a physical value by the factor and rounding it is not modelled.
- CoOccurrence.ProfileOneId: the hubs of the profile are not modelled.
- CoOccurrence.ProfileOneIdPacked: the hubs of the profile and the tally kernel passed in by the caller are not modelled.
- Candump.ParseOfFormat: white space and digits are the ASCII ones, where the line pattern also accepts other Unicode ones.
- Engine.Engine.FinishStop: assumes the reader thread has ended, where the program waits for it at most two seconds.
- Wire.ParseBatch: times are exact integers, where JavaScript numbers are exact only up to 2^53 microseconds.
- Ranks.TrendRanks: takes the sorted order as an argument, any order that sorts, because the sort is a library call.
- Ranks.PearsonMoments: stops before the square root; `Ranks.CorrelationBounded` holds for any root.
- Detection of the discriminating field is an arbitrary function of the history; its scores are not modelled.
- The message limit is the only source of passthrough; the user interface that shows the fall-back is not modelled.
- Window lengths and durations are whole seconds or microseconds; fractions of a microsecond are not modelled.
- Bit positions are unbounded; the 32-bit shifts of JavaScript agree with them below 2^31.
- Reading and printing formula text: the compiler is modelled down to the expression tree its text denotes.
- The ring's view methods, which share payload storage with later pushes.
- The WebAssembly tally kernel; the plain tally is modelled in its place.
- Hubs, the ordering of whole scan results, and score thresholds of the other analyzers.
- Entropy, mutual information and slope estimates, which are floating-point heuristics.
- The seeded permutation null of the dependence test and its sample positions: integer code, but what it feeds is the mutual information left out above.
- Reader and batcher statistics other than the drop counter; out-of-band health reports.
- Sockets, HTTP, hardware adapters, files, configuration and the simulator.
- Audio and the exact delays of the wizard's timers; which timer is armed and what it fires is modelled.
- Database import and export, project storage and the user interface.
