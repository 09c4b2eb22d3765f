# whisper-trtllm-rs: decode constraints and streaming features

whisper-trtllm-rs runs Whisper speech recognition on TensorRT-LLM from Rust. This
project models two parts of it: the logits processor that constrains every decode
step, and the buffers that turn a stream of audio chunks into log-mel feature
frames.

**Decode constraints.** `TranscribeLogitsProcessor::process` (src/sys/whisper.cpp)
gets the next-token scores of every beam and the tokens each beam has produced so
far. It masks scores to −∞ so that only grammatical continuations stay possible:

- After START_OF_TRANSCRIPT only a language tag may follow.
- After the language tag, TRANSCRIBE is forced.
- After that, NO_TIMESTAMPS is never allowed.
- Timestamps come in pairs and never go backwards.
- In single-segment mode, the first closed segment forces END_OF_TEXT.
- A beam whose timestamp probability mass beats its best text token must emit a timestamp.

The masks are those of src/sys/logits.h (`Logits`, `Logprobs`) and of the older
cpp/logits.h (`Logits`, `BeamLogits`). The token ids are those of src/sys/vocab.h and
cpp/token.h.

- `Rows` and `Vocab` give the score rows and the token ids.
- `SysLogits` and `CppLogits` state every mask first as a function on one row.
  A `Logits` class then performs the mask in place on an `array<Row>` shared by
  all its views.
- `Transcribe.ProcessSpec` states a whole decode step as a function.
- The method `TranscribeLogitsProcessor.Process` runs the step in place, loop by
  loop as the source does, and is proved equal to `ProcessSpec`.
- The rule lemmas state each guarantee of the step about `ProcessSpec`.

**Streaming features.** Audio arrives in chunks of any size. A buffer keeps:

- a tail `prev` of samples that later frames still need;
- the number of leading frames (`overlapFrames`) that the next extraction recomputes and must skip;
- the frames that can no longer change.

There are four such buffers:

- the C++ `FeatureBuffer` of src/sys/buffer.cpp, module `Buffer`;
- the Rust `FeatureBuffer` of src/features.rs, module `StreamFeatures`;
- the Rust `Audio` of src/audio.rs, module `Audio`;
- the earlier C++ buffer of cpp/feature.cpp, module `LegacyFeature`.

`Features` is the frame block of src/sys/features.h. `Mel` holds the extractor's
sizes and the frame arithmetic. `Vectors` models the `std::vector` operations the
C++ tail update uses.

`Buffer.Consistent` says what the integer state must be after a stream of a given
length:

- every final frame has been produced exactly once;
- the overlap is capped at the required overlap;
- the tail starts at the first hop of the overlap frames.

`Buffer.ChunkInvariance` proves that every way of cutting a stream into chunks ends
in that state. `TailStep` proves that the Rust tail bookkeeping agrees with the C++
bookkeeping, except for the defect listed under Findings.

The spectrogram numerics (`extract`) are a function value of the `Mel.Extractor`.
Each buffer states what it assumes of that function:

- `ExtractsAtLeast` or `ExtractsExactly`: it yields at least, or exactly, the final frames of its input;
- `SkipsExactly` for `Audio`.

Every buffer counts final frames with the formula of buffer.cpp:56-59: (n + hop − nFFT/2) / hop when n + hop > nFFT/2, else 0.

`process` never consults the request registry, although the processor keeps one: the lines that would read it are commented out.

## Model

| member | source | states |
|---|---|---|
| Vocab.TimestampBoundaries | src/sys/vocab.h:25-30 | `is_timestamp` is exactly the half-open range [50365, 51866): its first id and its last id are timestamps; NO_TIMESTAMPS just below it and the end id are not |
| Vocab.RangesOrdered | src/sys/vocab.h:10-26 | the special ids are strictly ordered, so text, control tokens, language tags and timestamps are disjoint ranges, and no language tag is a timestamp, TRANSCRIBE or START_OF_TRANSCRIPT |
| Vocab.ControlTokensAreNotTimestamps | src/sys/vocab.h:10-30 | none of SPACE, END_OF_TEXT, START_OF_TRANSCRIPT, TRANSCRIBE, START_OF_PREV, NO_TIMESTAMPS is classified as a timestamp |
| Vocab.ClauseEndCases | src/sys/vocab.h:32-36 | an empty history does not end a clause; any history ending in a clause mark, or in the three tokens of a full-width mark, does |
| Vocab.ClauseEndLooksAtLastThree | src/sys/vocab.h:32-36 | `is_clause_end` depends only on the last three tokens: prefixing a history with more tokens does not change it |
| Rows.Fill | src/sys/logits.h:125-130 | a range fill sets exactly the entries in [begin, end), clamped to the row, and keeps every other entry and the length |
| Rows.FillIdempotent | src/sys/logits.h:125-130 | filling the same range twice with the same value is filling it once |
| Rows.FillCommutes | src/sys/logits.h:125-130 | two fills with the same value can be applied in either order |
| Seqs.Slice | src/sys/features.h:18-23 | a tensor slice clamps both bounds to the sequence; within bounds it is the ordinary subsequence |
| SysLogits.RangeSuppressed | src/sys/logits.h:125-130 | `suppress_range(begin, end)`: the ids in [begin, end), or from begin on when end is missing, become −∞; the others keep their scores |
| SysLogits.Suppressed | src/sys/logits.h:119-123 | `suppress(id)`: entry id becomes −∞, every other entry is unchanged |
| SysLogits.IndicesSuppressed | src/sys/logits.h:132-139 | `suppress_indices(ids)`: an entry becomes −∞ exactly when its id is listed |
| SysLogits.Forced | src/sys/logits.h:73-81 | forcing a token leaves it as the only finite entry, with score 0 |
| SysLogits.TranscribeForced | src/sys/logits.h:73-76 | `set_transcribe`: TRANSCRIBE scores 0 and every other id is −∞ |
| SysLogits.EotForced | src/sys/logits.h:78-81 | `set_eot`: END_OF_TEXT scores 0 and every other id is −∞ |
| SysLogits.NoTimestampsSuppressed | src/sys/logits.h:83-85 | only NO_TIMESTAMPS becomes −∞ |
| SysLogits.NonLanguagesSuppressed | src/sys/logits.h:87-90 | language tags keep their scores and every other id becomes −∞ |
| SysLogits.EotSuppressed | src/sys/logits.h:92-94 | only END_OF_TEXT becomes −∞ |
| SysLogits.NonEotSuppressed | src/sys/logits.h:96-99 | every id but END_OF_TEXT becomes −∞, and END_OF_TEXT keeps its score |
| SysLogits.TimestampsSuppressed | src/sys/logits.h:101-103 | the timestamps below end (all timestamps when end is missing) become −∞; text and later timestamps keep their scores |
| SysLogits.NonTimestampsSuppressed | src/sys/logits.h:105-107 | every id below the first timestamp becomes −∞; the timestamps keep their scores |
| SysLogits.TextSuppressed | src/sys/logits.h:109-111 | ordinary text (ids below END_OF_TEXT) becomes −∞; END_OF_TEXT and above keep their scores |
| SysLogits.BlankSuppressed | src/sys/logits.h:113-116 | exactly SPACE and END_OF_TEXT become −∞ |
| SysLogits.RangeSuppressedIdempotent | src/sys/logits.h:125-130 | suppressing a range twice is suppressing it once |
| SysLogits.TimestampsSuppressedAbsorbs | src/sys/logits.h:101-103 | after closing the timestamps below e1, closing those below a bound e2 no greater than e1 changes nothing |
| SysLogits.MasksKeepTheOtherHalf | src/sys/logits.h:105-111 | the non-timestamp mask and the text mask leave the timestamp half of the row untouched, and the timestamp mask leaves the other half untouched |
| SysLogits.TimestampMaskKeepsText | src/sys/logits.h:101-103 | a timestamp mask never changes the non-timestamp half of a row |
| SysLogits.Timestamps | src/sys/logits.h:27-29 | `timestamps()` is the row from START_OF_TIMESTAMP on, entry for entry |
| SysLogits.NonTimestamps | src/sys/logits.h:31-33 | `non_timestamps()` is the row below START_OF_TIMESTAMP, entry for entry |
| SysLogits.LogprobsPartition | src/sys/logits.h:27-33 | the two halves concatenate back to the row, and their lengths add up to the row's |
| SysLogits.Logits.constructor | src/sys/logits.h:53-56 | a view of every beam row of the shared tensor |
| SysLogits.Logits.Row | src/sys/logits.h:58-61 | a view of a single row of the same tensor |
| SysLogits.Logits.Beam | src/sys/logits.h:63-66 | `beam(b)` returns a view of row b only, sharing the tensor, so writes through it reach the caller's scores |
| SysLogits.Logits.SuppressRange | src/sys/logits.h:125-130 | every row in the view becomes its `RangeSuppressed` form; rows outside the view are unchanged |
| SysLogits.Logits.Suppress | src/sys/logits.h:119-123 | every row in the view becomes its `Suppressed` form; other rows are unchanged |
| SysLogits.Logits.SuppressIndices | src/sys/logits.h:132-139 | every row in the view becomes its `IndicesSuppressed` form; other rows are unchanged |
| SysLogits.Logits.Force | src/sys/logits.h:73-81 | fill with −∞, then write 0 at id, gives `Forced` on each row of the view |
| SysLogits.Logits.SetTranscribe | src/sys/logits.h:73-76 | each row of the view becomes `TranscribeForced` |
| SysLogits.Logits.SetEot | src/sys/logits.h:78-81 | each row of the view becomes `EotForced` |
| SysLogits.Logits.SuppressNoTimestamps | src/sys/logits.h:83-85 | each row of the view becomes `NoTimestampsSuppressed` |
| SysLogits.Logits.SuppressNonLanguages | src/sys/logits.h:87-90 | each row of the view becomes `NonLanguagesSuppressed` |
| SysLogits.Logits.SuppressEot | src/sys/logits.h:92-94 | each row of the view becomes `EotSuppressed` |
| SysLogits.Logits.SuppressNonEot | src/sys/logits.h:96-99 | each row of the view becomes `NonEotSuppressed` |
| SysLogits.Logits.SuppressTimestamps | src/sys/logits.h:101-103 | each row of the view becomes `TimestampsSuppressed` |
| SysLogits.Logits.SuppressNonTimestamps | src/sys/logits.h:105-107 | each row of the view becomes `NonTimestampsSuppressed` |
| SysLogits.Logits.SuppressText | src/sys/logits.h:109-111 | each row of the view becomes `TextSuppressed` |
| SysLogits.Logits.SuppressBlank | src/sys/logits.h:113-116 | each row of the view becomes `BlankSuppressed` |
| CppLogits.WithEntry | cpp/logits.h:85-90 | `put(id, v)` sets entry id to v and keeps every other entry |
| CppLogits.WithRange | cpp/logits.h:92-105 | `putRange(begin, end, v)` and `putRange(begin, v)`: the ids in [begin, end), or from begin on, take v; the others are kept |
| CppLogits.NoTimestampsSuppressed | cpp/logits.h:158-160 | only NO_TIMESTAMPS (50363 in cpp/token.h) becomes −∞ |
| CppLogits.EndOfTextSuppressed | cpp/logits.h:162-164 | only END_OF_TEXT becomes −∞ |
| CppLogits.NonLanguageSuppressed | cpp/logits.h:166-169 | language tags keep their scores and every other id becomes −∞ |
| CppLogits.TextSuppressed | cpp/logits.h:171-173 | ordinary text (ids below END_OF_TEXT) becomes −∞; the rest keep their scores |
| CppLogits.TimestampsSuppressed | cpp/logits.h:175-181 | the timestamps below end, or all of them, become −∞; the rest keep their scores |
| CppLogits.NonTimestampSuppressed | cpp/logits.h:183-185 | every id below BEGIN_OF_TIMESTAMP becomes −∞ |
| CppLogits.NonEndOfTextSuppressed | cpp/logits.h:187-190 | every id but END_OF_TEXT becomes −∞; END_OF_TEXT keeps its score |
| CppLogits.NonEndOfTextLeavesAtMostOne | cpp/logits.h:187-190 | after `suppressNonEndOfText` a row has one finite entry when END_OF_TEXT was finite, and none otherwise |
| CppLogits.TextAndTimestampMasksCommute | cpp/logits.h:171-181 | the text mask and the timestamp mask touch disjoint ranges, so they can be applied in either order |
| CppLogits.BeamLogprobsPartition | cpp/logits.h:135-141 | `nonTimestamps()` and `timestamps()` split the row at BEGIN_OF_TIMESTAMP and concatenate back to it |
| CppLogits.BeamLogits.constructor | cpp/logits.h:156 | a view of beam row b of the shared tensor |
| CppLogits.BeamLogits.Put | cpp/logits.h:85-90 | only row b changes, to `WithEntry` of it |
| CppLogits.BeamLogits.PutRange | cpp/logits.h:92-105 | only row b changes, to `WithRange` of it |
| CppLogits.BeamLogits.SuppressNoTimestamps | cpp/logits.h:158-160 | only row b changes, to `NoTimestampsSuppressed` of it |
| CppLogits.BeamLogits.SuppressEndOfText | cpp/logits.h:162-164 | only row b changes, to `EndOfTextSuppressed` of it |
| CppLogits.BeamLogits.SuppressNonLanguage | cpp/logits.h:166-169 | only row b changes, to `NonLanguageSuppressed` of it |
| CppLogits.BeamLogits.SuppressText | cpp/logits.h:171-173 | only row b changes, to `TextSuppressed` of it |
| CppLogits.BeamLogits.SuppressTimestamps | cpp/logits.h:175-181 | only row b changes, to `TimestampsSuppressed` of it |
| CppLogits.BeamLogits.SuppressNonTimestamp | cpp/logits.h:183-185 | only row b changes, to `NonTimestampSuppressed` of it |
| CppLogits.BeamLogits.SuppressNonEndOfText | cpp/logits.h:187-190 | only row b changes, to `NonEndOfTextSuppressed` of it |
| CppLogits.Logits.constructor | cpp/logits.h:204-207 | a view of every beam row of the shared tensor |
| CppLogits.Logits.Put | cpp/logits.h:40-49 | every beam row becomes `WithEntry` of it |
| CppLogits.Logits.PutRange | cpp/logits.h:51-64 | every beam row becomes `WithRange` of it |
| CppLogits.Logits.SuppressNoTimestamps | cpp/logits.h:209-211 | every beam row becomes `NoTimestampsSuppressed` of it |
| CppLogits.Logits.SuppressNonLanguage | cpp/logits.h:213-216 | every beam row becomes `NonLanguageSuppressed` of it |
| CppLogits.Logits.SuppressNonTimestamp | cpp/logits.h:218-220 | every beam row becomes `NonTimestampSuppressed` of it |
| CppLogits.Logits.Beam | cpp/logits.h:227-230 | `beam(b)` is a view of row b of the same tensor |
| Transcribe.ScanTimestamp | src/sys/whisper.cpp:280-290 | the backward scan from the last token yields a timestamp whenever it yields anything |
| Transcribe.ScanFindsNearest | src/sys/whisper.cpp:282-288 | the scan stops at the TRANSCRIBE or timestamp nearest the end: it yields that timestamp, or nothing when TRANSCRIBE comes first |
| Transcribe.BeamRule | src/sys/whisper.cpp:259-290 | one beam's rules keep the row length; they end the step exactly when single-segment mode meets a closed segment, and otherwise ask for the probability check exactly when the history does not end in two timestamps |
| Transcribe.StepAt | src/sys/whisper.cpp:255-291 | the loop's step at one beam is the beam rule wherever the history can be read, with the same finish and check flags |
| Transcribe.Steps | src/sys/whisper.cpp:255-291 | the loop takes each beam's step on the row as it was before the loop, one step per beam |
| Transcribe.Walk | src/sys/whisper.cpp:255-291 | the beam loop keeps the number of rows and each row's length |
| Transcribe.AllNonLanguagesSuppressed | src/sys/whisper.cpp:238-241 | the language gate masks every row, keeping the number and length of rows |
| Transcribe.AllTranscribeForced | src/sys/whisper.cpp:243-246 | the task gate forces TRANSCRIBE in every row, keeping the number and length of rows |
| Transcribe.AllNoTimestampsSuppressed | src/sys/whisper.cpp:251 | NO_TIMESTAMPS is closed in every row, keeping every row wide enough for the control tokens |
| Transcribe.ProbabilityChecked | src/sys/whisper.cpp:293-306 | the probability check over the first n beams keeps the number and length of rows |
| Transcribe.CheckedRow | src/sys/whisper.cpp:296-304 | one beam's probability check keeps the row length |
| Transcribe.Beams | src/sys/whisper.cpp:251-291 | the beam loop after NO_TIMESTAMPS is suppressed keeps the shape of the score tensor |
| Transcribe.ProcessSpec | src/sys/whisper.cpp:213-307 | a decode step keeps the shape of the score tensor |
| Transcribe.WalkRows | src/sys/whisper.cpp:255-291 | the loop replaces exactly the rows it reaches by their steps and leaves every other row as it was |
| Transcribe.WalkFinished | src/sys/whisper.cpp:271-274 | the loop ends the step early exactly when a beam it reaches finishes |
| Transcribe.WalkCheck | src/sys/whisper.cpp:253-290 | the check flag is set exactly when a reached, non-finishing beam sets it |
| Transcribe.PassesReached | src/sys/whisper.cpp:255-291 | the loop reaches beam k exactly when no earlier history finishes the step |
| Transcribe.BeamsShape | src/sys/whisper.cpp:251-291 | after the loop, each reached row is its beam rule applied after the NO_TIMESTAMPS mask and each other row has only that mask; the step finishes, and the check is requested, exactly when the histories say so |
| Transcribe.ReachedSteps | src/sys/whisper.cpp:255-291 | every beam the loop reaches takes the beam rule |
| Transcribe.BeamRow | src/sys/whisper.cpp:251-291 | row b after the loop keeps its length |
| Transcribe.WalkChecks | src/sys/whisper.cpp:291-293 | the loop ends unfinished with the flag set exactly when no step finishes and some step sets the flag |
| Transcribe.ChecksExactly | src/sys/whisper.cpp:291-306 | the probability check runs exactly when no beam finishes the step and some beam sets the flag |
| Transcribe.GeneralRow | src/sys/whisper.cpp:248-306 | past the gates, each row of the step is its row after the beam loop, put through the probability check when the check runs |
| Transcribe.LanguageGateRule | src/sys/whisper.cpp:238-241 | right after START_OF_TRANSCRIPT every row keeps exactly its language-tag scores and everything else is −∞ |
| Transcribe.TaskGateRule | src/sys/whisper.cpp:243-246 | right after the language tag every row has exactly one finite entry, TRANSCRIBE, with score 0 |
| Transcribe.NoTimestampsNeverFollows | src/sys/whisper.cpp:251 | past the gates, NO_TIMESTAMPS is −∞ in every row whatever else the step does |
| Transcribe.DoubleTimestampRule | src/sys/whisper.cpp:267-269 | after two timestamps in a row, or a timestamp as the first text token, every timestamp is −∞ in that beam |
| Transcribe.SingleSegmentRule | src/sys/whisper.cpp:271-274 | in single-segment mode a beam that closes a segment has END_OF_TEXT as its only finite entry; earlier beams keep the rows the loop gave them; later beams keep their scores bar NO_TIMESTAMPS; the probability check is skipped |
| Transcribe.SegmentCloseRule | src/sys/whisper.cpp:275-277 | after closing a segment at timestamp t, text and the timestamps before t are −∞, and the timestamps from t on keep their scores |
| Transcribe.MonotonicTimestampRule | src/sys/whisper.cpp:280-290 | when a beam does not end in a timestamp, the timestamps up to the latest one since TRANSCRIBE are −∞ and later ones keep their scores; with none since TRANSCRIBE all timestamps keep their scores |
| Transcribe.ProbabilityCheckRule | src/sys/whisper.cpp:293-306 | when the check runs, a beam whose timestamp mass beats its best text score keeps only its timestamps; any other beam is left as the loop left it |
| Transcribe.Emplaced | src/sys/whisper.cpp:203 | `emplace` adds the key, keeps an existing entry for it and leaves other keys alone |
| Transcribe.Erased | src/sys/whisper.cpp:210 | `erase` removes the key and keeps every other entry |
| Transcribe.RegistryLaws | src/sys/whisper.cpp:198-211 | registering an id twice is registering it once; unregistering a freshly registered id restores the registry; unregistering is idempotent |
| Transcribe.TranscribeLogitsProcessor.RegisterRequest | src/sys/whisper.cpp:198-204 | the registry becomes `Emplaced` of itself with the new context |
| Transcribe.TranscribeLogitsProcessor.UnregisterRequest | src/sys/whisper.cpp:206-211 | the registry becomes `Erased` of itself |
| Transcribe.TranscribeLogitsProcessor.AwaitTranscribeResponse | src/sys/whisper.cpp:166-190 | a final response unregisters the request; the flags are passed on; each token is returned as the unsigned 32-bit value congruent to it |
| Transcribe.TranscribeLogitsProcessor.Process | src/sys/whisper.cpp:213-307 | the in-place step leaves the score tensor equal to `ProcessSpec` of the scores before it |
| Transcribe.WalkBeams | src/sys/whisper.cpp:255-291 | the in-place beam loop leaves the rows, the finish flag and the check flag that `Walk` gives |
| Transcribe.StepBeam | src/sys/whisper.cpp:256-290 | one loop iteration changes only row b, to its beam rule, and reports the rule's finish and check flags |
| Transcribe.AfterTimestamp | src/sys/whisper.cpp:267-279 | for a history ending in a timestamp, the row becomes its beam rule; the step finishes exactly in single-segment mode on a closed segment |
| Transcribe.SuppressBeforeLastTimestamp | src/sys/whisper.cpp:280-290 | for a history not ending in a timestamp, the row becomes `ScanSuppressed` of it |
| Transcribe.LastStop | src/sys/whisper.cpp:282-288 | the backward walk stops at the TRANSCRIBE or timestamp nearest the end |
| Transcribe.ScanSuppressed | src/sys/whisper.cpp:280-290 | the backward scan only ever closes timestamps: text and special tokens keep their scores, and every other score is kept or becomes −∞ |
| Transcribe.ScanStopsAt | src/sys/whisper.cpp:282-288 | the stop the walk finds decides the row: unchanged at TRANSCRIBE, the timestamps up to and including t closed at timestamp t |
| Transcribe.CheckProbabilities | src/sys/whisper.cpp:293-306 | the in-place check leaves `ProbabilityChecked` of the rows before it, deciding each beam on the scores taken before any beam changes |
| Features.PadFrame | src/sys/features.h:31-38 | a pad frame has the block's width and holds −1.5 everywhere |
| Features.PadFrames | src/sys/features.h:31-38 | p pad frames, each a `PadFrame` |
| Features.Features.Slice | src/sys/features.h:18-23 | `slice(start, end)` keeps the width; within bounds it is frames [start, end) |
| Features.Features.SliceToEnd | src/sys/features.h:25-29 | `slice_to_end(start)` keeps the width and drops the first start frames, all of them when there are fewer |
| Features.Features.Pad | src/sys/features.h:31-38 | `pad(p)` keeps the frames and adds p frames of −1.5 after them |
| Features.Features.Join | src/sys/features.h:40-43 | `join` puts this block's frames, then the other's |
| Features.SliceJoinSliceToEnd | src/sys/features.h:18-43 | cutting a block at k and joining the two pieces gives the block back |
| Features.JoinThenSlice | src/sys/features.h:18-43 | slicing a join at the join point gives back both halves |
| Features.PadThenSlice | src/sys/features.h:18-38 | slicing a padded block back to its old length undoes the padding |
| Features.JoinAssociative | src/sys/features.h:40-43 | joins are associative |
| Features.SliceToEndTwice | src/sys/features.h:25-29 | dropping a frames, then b frames, is dropping a + b frames |
| Mel.DefaultOverlapIsTwo | src/sys/mel.rs:58 | with the default window 400 and hop 160, two overlap frames are recomputed |
| Mel.RequiredOverlapIsCeiling | src/sys/mel.rs:58 | the required overlap is the ceiling of half a window over the hop: that many hops cover half a window, one fewer do not |
| Mel.FrameCountMonotone | src/sys/buffer.cpp:56-59 | more samples never give fewer final frames |
| Mel.FrameCountFits | src/sys/buffer.cpp:56-60 | the hops of the final frames fit in the samples, so the tail length never wraps around |
| Mel.FrameCountDropHops | src/sys/buffer.cpp:55-66 | dropping k whole hops from the front drops k final frames, down to none |
| Buffer.AppendTally | src/sys/buffer.cpp:55-65 | one append's new tail fits in the old tail and the chunk, its overlap never exceeds the required overlap, and no frame is taken back |
| Buffer.AppendKeepsConsistent | src/sys/buffer.cpp:55-79 | from a consistent state one append recomputes exactly the skipped overlap frames, the tail never underflows, and the new state is consistent with the longer stream |
| Buffer.StepSizes | src/sys/buffer.cpp:55-66 | the frame count, overlap and tail length of one append are those of `AppendTally`, with a tail no longer than the samples at hand |
| Buffer.ChunkInvariance | src/sys/buffer.cpp:52-80 | however the stream is cut into chunks, the buffer ends with the number of final frames of the whole stream, the same overlap and the same tail length |
| Buffer.DefaultChunks | src/sys/buffer.cpp:52-80 | at the default sizes, chunks of 400, 4000 and 10000 samples give 89 frames, as one chunk of 14400 does |
| Buffer.TailUnderflowsWithLongHop | src/sys/buffer.cpp:60 | with a hop longer than half a window, the hops of the final frames exceed the samples, so line 60 would wrap around; the model's `Ok` excludes such an extractor |
| Buffer.KeepTail | src/sys/buffer.cpp:66-79 | the new tail is the last n samples of the old tail followed by the chunk, whichever branch copies it |
| Buffer.OverwriteTail | src/sys/buffer.cpp:67-69 | resizing and copying from the chunk keeps the last n samples of the chunk |
| Buffer.ShiftTail | src/sys/buffer.cpp:70-75 | moving the end of the tail forward and copying the chunk behind it gives the last m samples of the tail followed by the chunk |
| Buffer.FeatureBuffer.constructor | src/sys/buffer.cpp:5-14 | an empty, consistent buffer whose overlap cap is the required overlap |
| Buffer.FeatureBuffer.WithDefaults | src/sys/buffer.h:19-25 | the path constructor's defaults give 128 mels, window 400, hop 160 and an overlap cap of 2 |
| Buffer.FeatureBuffer.Len | src/sys/buffer.h:33-35 | `len()` is the number of final frames of the samples appended so far that were not consumed |
| Buffer.FeatureBuffer.IsEmpty | src/sys/buffer.h:37-39 | `isEmpty()` holds exactly when nothing is buffered and every sample appended lies in a hop of a final frame |
| Buffer.FeatureBuffer.GetFeatures | src/sys/buffer.cpp:39-50 | with enough frames buffered, the first amt of them; otherwise every buffered frame, in order, followed by frames extracted from the tail |
| Buffer.FeatureBuffer.FeaturesOf | src/sys/buffer.h:50-52 | `features(amt)` wraps `getFeatures(amt)` in a block of the extractor's width |
| Buffer.FeatureBuffer.Append | src/sys/buffer.cpp:52-80 | the frames past the overlap, up to the final ones, are buffered after the old ones; the integer state moves as `AppendTally` says and stays consistent with the longer stream; the tail is a suffix of the old tail and the chunk |
| Buffer.FeatureBuffer.AppendSlice | src/sys/buffer.h:55-59 | the slice overload does exactly what `append` does |
| Buffer.FeatureBuffer.Consume | src/sys/buffer.cpp:82-86 | the first amt buffered frames are dropped (all when there are fewer), the rest keep their order, and the tail and overlap are unchanged |
| TailStep.NewFrames | src/features.rs:93-96 | the frames left after skipping the overlap, together with the overlap, cover every final frame, exactly so when any are left |
| TailStep.TailPlan | src/features.rs:98-107 | the overlap never shrinks; below the cap it grows by the new frames up to the cap, and it never passes the cap |
| TailStep.RefillAsWritten | src/features.rs:98-113 | the tail the code keeps, when it does not panic, is a suffix of the old tail and the chunk, of the planned length |
| TailStep.Refill | src/features.rs:98-113 | the corrected tail is a suffix of the old tail and the chunk, of the planned length |
| TailStep.PlanMatchesAppend | src/features.rs:98-107 | from a consistent state the Rust plan never underflows, and it gives the tail length, overlap and frame count of the C++ `append` |
| TailStep.PlanKeepsConsistent | src/features.rs:98-113 | after the corrected step the state is consistent with the longer stream, and the tail fits in the samples at hand |
| TailStep.RefillFollowsPlan | src/features.rs:109-113 | whenever the plan fits, the corrected step keeps exactly the last `tailLength` samples of the old tail and the chunk |
| TailStep.SaturatedFillPanics | src/features.rs:109-113 | at the default sizes, a chunk of 400 samples then one of 160 make the code as written panic, while the corrected step keeps the last 240 samples of the first chunk and the whole second chunk |
| StreamFeatures.Extracted | src/features.rs:93-96 | the frames past the overlap keep the extractor's width and, for an exact extractor, number `NewFrames` |
| StreamFeatures.FeatureBuffer.constructor | src/features.rs:23-34 | nothing read, nothing buffered, and a consistent state |
| StreamFeatures.FeatureBuffer.Len | src/features.rs:36-38 | before the end of the stream, `len()` is the number of final frames of every sample heard, plus whatever `consume` was asked to drop beyond the buffered frames |
| StreamFeatures.OffsetMillis | src/features.rs:125-127 | the frame offset in milliseconds, which `consume_millis` reads back as exactly that many frames |
| StreamFeatures.FeatureBuffer.Offset | src/features.rs:44-46 | `offset()` adds MILLIS_PER_FRAME to the frame offset, so it never equals the offset in milliseconds |
| StreamFeatures.FeatureBuffer.OffsetMisreadsFrames | src/features.rs:44-46 | read back at `consume_millis`'s rate, `offset()` stands for offset / 10 + 1 frames, the frames consumed only when exactly one was |
| StreamFeatures.FeatureBuffer.Fill | src/features.rs:85-118 | with a chunk pending, the chunk is consumed, its frames past the overlap are joined on and the tail follows `Refill`; with none, eof is set and the buffered frames are unchanged |
| StreamFeatures.FeatureBuffer.Append | src/features.rs:93-117 | one chunk joins its frames past the overlap, moves the tail as `Refill` says and keeps the state consistent with the longer stream |
| StreamFeatures.FeatureBuffer.FeaturesOf | src/features.rs:64-83 | fills until enough frames are buffered or the stream ends; then the first chunk_size frames, or at the end the buffered frames padded to chunk_size, or nothing when none are buffered; the chunks are delivered in order and no buffered frame is lost |
| StreamFeatures.FeatureBuffer.Consume | src/features.rs:120-123 | drops the first n frames and adds n to the offset, so `len()` is unchanged when n frames were buffered |
| StreamFeatures.FeatureBuffer.ConsumeMillis | src/features.rs:125-127 | consumes the whole frames that millis spans, at 10 ms per frame |
| Audio.Audio.constructor | src/audio.rs:23-34 | nothing read, nothing buffered, and a consistent state |
| Audio.Audio.Offset | src/audio.rs:44-46 | `offset()` is never the frame offset in milliseconds |
| Audio.Audio.OffsetMisreadsFrames | src/audio.rs:44-46 | read back at `consume_millis`'s rate, `offset()` stands for offset / 10 + 1 frames, the frames consumed only when exactly one was |
| Audio.Audio.Len | src/audio.rs:36-38 | before the end of the stream, `len()` is the number of final frames of every sample heard, plus the frames consumed beyond the buffer |
| Audio.Audio.Final | src/audio.rs:124-126 | the frames extracted from the tail at the end of the stream have the extractor's width |
| Audio.Audio.FeaturesOf | src/audio.rs:120-128 | the first n buffered frames when there are enough; otherwise every buffered frame followed by the frames extracted from the tail; nothing changes |
| Audio.Audio.Fill | src/audio.rs:86-118 | reports whether a chunk was pending; if one was, it is consumed, its frames are joined on and the tail follows `Refill`; if not, nothing changes |
| Audio.Audio.Append | src/audio.rs:91-115 | one chunk joins the frames past the overlap, moves the tail as `Refill` says and keeps the state consistent with the longer stream |
| Audio.Audio.Chunk | src/audio.rs:64-84 | the first chunk_size frames once enough are buffered; at the end of the stream the buffered frames followed by frames extracted from the tail; `None` exactly when the stream had already ended with nothing buffered |
| Audio.Audio.Consume | src/audio.rs:130-133 | drops the first n frames and adds n to the offset |
| Audio.Audio.ConsumeMillis | src/audio.rs:135-137 | consumes the whole frames that millis spans |
| LegacyFeature.PrevHops | cpp/feature.cpp:10 | the tail is the fewest whole hops that cover a full window |
| LegacyFeature.DefaultPrevHops | cpp/feature.cpp:10 | at the default sizes the tail is three hops, 480 samples |
| LegacyFeature.Rotated | cpp/feature.cpp:20-34 | the new tail has the tail length: the end of a long chunk, or a short chunk behind the end of the old tail, zero-filled when there was none |
| LegacyFeature.Rotate | cpp/feature.cpp:20-34 | the in-place branches give `Rotated` |
| LegacyFeature.CopyLast | cpp/feature.cpp:21-26 | growing the tail and copying over its front keeps the last n samples of the chunk |
| LegacyFeature.ShiftIn | cpp/feature.cpp:31-33 | shifting the tail left by the chunk's length and copying the chunk behind gives the tail's end followed by the chunk |
| LegacyFeature.Window | cpp/feature.cpp:20-34 | the window of a stream is its last n samples, zeros standing before the first sample |
| LegacyFeature.RotatedWindow | cpp/feature.cpp:20-34 | rotating a chunk into the window of a stream gives the window of the longer stream |
| LegacyFeature.EmptyRotated | cpp/feature.cpp:28-30 | the first append to a fresh buffer starts from a zero window |
| LegacyFeature.WindowAdvances | cpp/feature.cpp:20-34 | fresh or not, one append leaves the window of the longer stream |
| LegacyFeature.TorchIndex | cpp/feature.cpp:40 | a tensor slice bound counts negative values from the end and clamps both ends to the dimension |
| LegacyFeature.FeatureBuffer.constructor | cpp/feature.cpp:3-11 | an empty buffer with no tail and the tail length in hops of `PrevHops` |
| LegacyFeature.FeatureBuffer.WithDefaultChunkSize | cpp/feature.h:7-10 | the constructor without a chunk size takes chunks of 3000 rows, otherwise as the two-argument constructor |
| LegacyFeature.FeatureBuffer.Chunk | cpp/feature.h:12-14 | `chunk()` is a prefix of the buffered rows, of length chunkSize clamped to the rows when chunkSize is not negative |
| LegacyFeature.FeatureBuffer.Append | cpp/feature.cpp:13-35 | the rows past the first `mNPrevHops` are buffered after the old ones, and the tail becomes the window of every sample heard |
| LegacyFeature.FeatureBuffer.Consume | cpp/feature.cpp:37-41 | drops the first amt rows (counted from the end when negative), keeping the rest in order, with the tail unchanged |
| Vectors.Resize | src/sys/buffer.cpp:68 | `resize(n)` keeps the first n elements and zero-fills the rest |
| Vectors.CopyFrom | src/sys/buffer.cpp:69 | `std::copy` into a vector overwrites exactly the target range |
| Vectors.CopyWithin | src/sys/buffer.cpp:73 | a forward `std::copy` within one vector moves the source range to the front position and leaves the rest |

## Left out

- I/O and the runtime are not modelled: the TensorRT-LLM executor, request enqueueing, `is_response_ready`, CUDA streams and the mutex around the registry. `process` takes the score tensor and the beam histories as parameters.
- Floating point: scores are −∞ or an exact real. `log_softmax`, `logsumexp` and `max` are not modelled. The comparison of line 301 of src/sys/whisper.cpp is the parameter `massBeats`, applied to the two halves given by `Logprobs`.
- `Logits::logprobs()` is not modelled (src/sys/logits.h:68-71 and cpp/logits.h:232-235). Neither are `Logprobs::max`, `Logprobs::logsumexp` and `Logprobs::slice` (src/sys/logits.h:35-46). Only the timestamp split that the step reads is modelled.
- Transcribe.TranscribeLogitsProcessor.AwaitTranscribeResponse: the average log-probability and waiting on the executor are not modelled. The response is a parameter.
- The half-precision storage of the scores, and the tensor layout beyond rows of scores, are not modelled.
- `BeamLogits::suppressBlank` and `Logits::suppressBlank` of cpp/logits.h are not modelled: they use a SPACE constant that cpp/token.h does not define. `putIndices` is left out with them: they are its only users.
- Transcribe.StepAt: for a history the step cannot read (too short, or with no TRANSCRIBE or timestamp to stop the backward scan), the model keeps the row. The source would read out of bounds there, and `Process` requires that the loop never reaches such a history.
- Transcribe.Steps: every beam's step is computed from the row as it was before the loop. This is sound because the loop changes no row before it reaches it; it is not a separate claim about the source.
- The spectrogram itself is not modelled: the STFT, the mel filters, the log and the clamping. The extractor is a function value. The buffers assume only how many frames it yields (`ExtractsAtLeast`, `ExtractsExactly`, `SkipsExactly`). Its errors (the `?` and `unwrap` in the Rust buffers) are not modelled.
- Audio: src/audio.rs calls `extract` with four arguments, but src/sys/mel.rs declares three. The fourth argument is taken as a padding count whose effect is not fixed; `SkipsExactly` constrains only the call with 0.
- Audio.Audio.Chunk: the condition at src/audio.rs:71-73 is split over two lines and does not parse as written. It is read as `eof && features.len() == 0`.
- StreamFeatures.FeatureBuffer.Fill: at the end of the stream the source extracts the final frames and joins them, but drops the joined block (src/features.rs:87-88). The model keeps the buffered frames unchanged, as the code does.
- StreamFeatures.Extracted, StreamFeatures.FeatureBuffer.Append, StreamFeatures.FeatureBuffer.Fill: src/features.rs:87 and :93 call `extract_final` and `extract` with two arguments, but src/sys/mel.rs:86 and :93 declare three (the tail, the chunk and a `skip`), so the file does not compile against its wrapper as written. The model reads the missing argument as no skip at all: it calls the extractor with `None`, the default of src/sys/mel.h:28. A skip of 0 through the bridge of src/sys/mel.h:35-42 would arrive as `Some(0)`, which the model does not cover.
- StreamFeatures.FeatureBuffer.Fill, StreamFeatures.FeatureBuffer.Append, Audio.Audio.Fill, Audio.Audio.Append: these model the corrected tail step `TailStep.Refill`, not the code as written. Once the overlap is saturated, a chunk shorter than the tail makes the slice at src/features.rs:113 and src/audio.rs:113 panic (see Findings, `TailStep.SaturatedFillPanics`); the model never panics there.
- The audio streams are modelled as the finite list of chunks they will still yield. Asynchrony and an endless stream are not modelled.
- Buffer.FeatureBuffer.GetFeatures: the call passes `padTo` in the position of `skip` (src/sys/buffer.cpp:43-44). The model passes it the same way and states only the prefix of the result.
- The buffer.cpp:77 branch that inserts the chunk is not modelled separately: `Buffer.KeepTail` proves that it cannot be reached.
- Buffer: the path constructor of src/sys/buffer.cpp:16-25 passes the device and the sizes in a different order from the `LogMelSpectrogram` constructor. The model keeps the intended sizes (`WithDefaults`).
- The accessors `nMels`, `nFFT` and `hopLength` (src/sys/buffer.cpp:27-37) and `eof` (src/features.rs:40, src/audio.rs:40) read fields of the model and have no member of their own. `len()` is modelled by `Buffer.FeatureBuffer.Len`, `StreamFeatures.FeatureBuffer.Len` and `Audio.Audio.Len`.
- `Buffer.Consistent` requires 0 < hop ≤ nFFT/2 (`Extractor.Ok`). With a longer hop the C++ tail length wraps around (`Buffer.TailUnderflowsWithLongHop`), and no buffer is modelled for that case.
- LegacyFeature: cpp/feature.cpp and cpp/feature.h do not compile as written: a condition without parentheses, `std::vector<const float>`, a member declared under another name, and `consume` declared with a return value but defined as `void`. The model takes the evident meaning of each line. Its tail is `nFFT` long and not `nFFT/2`, as line 10 says.
- cpp/token.h gives NO_TIMESTAMPS as 50363, but src/sys/vocab.h gives 50364. Each module keeps its own file's value.
- `offset()` in src/features.rs and src/audio.rs adds MILLIS_PER_FRAME to the frame count. `Offset` models it as written and `StreamFeatures.OffsetMillis` gives the evident millisecond offset (see Findings). Nothing else in the model reads either.
- The Rust `Features` element type (f16) and devices are not modelled.
- `is_clause_end` and the other helpers of src/sys/vocab.h are modelled as classifiers. Nothing in the modelled core calls them.

## Findings

| source | as written | input that shows it | evidently intended | confidence | as-written member | corrected member |
|---|---|---|---|---|---|---|
| src/features.rs:109-113 (the same lines in src/audio.rs:109-113) | once the overlap is saturated, the new tail is sliced from the chunk alone: `samples[samples.len() - n..]` | default sizes (window 400, hop 160): a chunk of 400 samples, then one of 160; the second `fill` needs a tail of 400 samples from a 160-sample chunk, so the slice start underflows and the buffer panics | the tail is the last `n` samples of the old tail followed by the chunk, as in the C++ `append` | not executed | TailStep.SaturatedFillPanics | TailStep.PlanKeepsConsistent |
| src/features.rs:44-46 (the same lines in src/audio.rs:44-46) | `offset()` returns `offset + MILLIS_PER_FRAME`, adding a frame rate to a frame count | 20 frames consumed: `offset()` is 30, and `consume_millis(30)` would consume 3 frames, not 20 | `offset * MILLIS_PER_FRAME`, the offset in the milliseconds `consume_millis` divides by MILLIS_PER_FRAME (src/features.rs:125-127) | not executed | StreamFeatures.FeatureBuffer.OffsetMisreadsFrames | StreamFeatures.OffsetMillis |
