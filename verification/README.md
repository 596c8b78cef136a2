# A verified model of the YouTube download bot's core

The bot (`bot.py`) lets a Telegram user send a link, shows one button per
downloadable video format plus a "best audio" button, and on a press downloads
the chosen format, splits a file above 2,097,152,000 bytes into parts with
`split -b`, and uploads the result. Each user has at most one job running;
further choices wait in a per-user first-in-first-out backlog. A 60-second
timer discards a link on which no choice was made.

This Dafny project models that core as pure functions over immutable data:

- `text.dfy` (`Text`): decimal rendering, `02d` padding, Python's
  `str.split` on one character and its inverse, used by the modules below.
- `helpers.dfy` (`Helpers`): `sanitize_filename`, `format_duration` with a
  reference reader of its output, and the 40-character search-title cut.
- `callback.dfy` (`Callback`): the button data `"<type>|<selection>"` and
  its parse in `quality_chosen`.
- `formats.dfy` (`Formats`): which formats become video options (video codec
  present, AV1 bands switched by `AV1_FOR_LOWRES`/`AV1_FOR_HIGHRES`), the
  per-id map the entry keeps, the quality label, and the best audio-only format.
- `selection.dfy` (`Selection`): the user's entry and the keyboard that
  `prepare_video_info_and_show_quality` builds; the resolver's answer is an input.
- `resolution.dfy` (`Resolution`): how `_process_task` turns a choice into a
  download request, and its failures before any download.
- `splitter.dfy` (`Splitter`): the split threshold, the part size for fixed
  and equal splitting, and the pieces `split -b` writes.
- `throttle.dfy` (`Throttle`): the progress hooks' rate limit.
- `delivery.dfy` (`Delivery`): the send loop over the pieces.
- `pipeline.dfy` (`Pipeline`): `_process_task` end to end, with the
  downloader, `split`, the file system and Telegram as inputs.
- `scheduler.dfy` (`Scheduler`): `user_busy`, `user_queue`,
  `user_video_info` and the handlers that change them, each one atomic step.
- `traces.dfy` (`Traces`): arbitrary interleavings of those handlers, with
  the invariant that a user has at most one job running and that the backlog
  is first in, first out.

Behaviours of the code worth knowing, each with the member that states it:

- Every press of a quality button is handled as a new choice, including a
  second press on the same keyboard: it starts a job or joins the backlog like
  any other (`Scheduler.Submit`).
- The selection timer reads whatever entry the user has when it fires, not the
  one it was started for (`Scheduler.TimerNotScopedToEntry`).
- A choice queued while busy does not mark the live entry as selected, so the
  timer may still announce the cancellation while the queued copy later runs
  (`Scheduler.QueuedChoiceStillExpires`).
- A choice made while busy after the entry was discarded gets its position
  message, and is then lost when copying the missing entry fails
  (`Scheduler.ChoiceWithoutEntryDropped`).
- `check_next` runs the next job synchronously inside the finished job's
  `finally`, so a finished job's status message is deleted only after the rest
  of the backlog has run, and not at all when a later job raises
  (`Scheduler.ChainDeleted`, `Scheduler.SucceededButKept`).
- An idle user's choice sets the busy flag before the unguarded answer to the
  button press; when that answer raises, no job starts and the user stays busy
  for good (`Traces.FailedAnswerStrands`, `Traces.StrandedForever`; see
  Findings).

## Model

| member | source | states |
|---|---|---|
| Text.SplitOn | bot.py:623 | Python's `split` on one character: the number of fields is one more than the number of separators, and no field contains the separator. |
| Text.JoinSplit | bot.py:623 | Joining the fields of a split with the separator gives back the original string. |
| Text.SplitJoin | bot.py:623 | Splitting a join of separator-free fields gives back exactly those fields. |
| Text.IntToStringRoundTrip | bot.py:155-158 | The decimal rendering of an integer reads back as that integer. |
| Text.ZeroPad2RoundTrip | bot.py:65 | The `02d` rendering of a number reads back as that number. |
| Helpers.SanitizeFilename | bot.py:58-59 | The result contains none of the nine forbidden characters and is never longer than the name. |
| Helpers.SanitizeConcat | bot.py:58-59 | Sanitising distributes over concatenation, so the kept characters stay in their original order. |
| Helpers.SanitizeCounts | bot.py:58-59 | Every allowed character is kept exactly as often as it occurs, and every forbidden one is removed. |
| Helpers.SanitizeFixpoint | bot.py:58-59 | A name is left unchanged if and only if it has no forbidden character. |
| Helpers.SanitizeIdempotent | bot.py:58-59 | Sanitising twice gives the same result as sanitising once. |
| Helpers.ClockOf | bot.py:61-64 | Minutes and seconds lie in 0..59, `h*3600 + m*60 + s` equals the input, and the hour field is zero if and only if the input is in 0..3599. |
| Helpers.FormatDurationRoundTrip | bot.py:61-65 | Reading the rendered duration back gives the seconds. The hours field is present if and only if the input is at least 3600 or negative. Every field has at least two characters, and the minute and second fields have exactly two. The last field reads back as the clock's seconds, the one before as its minutes, and a third field as its hours. |
| Helpers.TruncateTitle | bot.py:251-252 | A title of at most 40 characters is unchanged. A longer one becomes its first 40 characters followed by `...`, so no result exceeds 43 characters. |
| Helpers.TruncateTitleIdempotent | bot.py:251-252 | Truncating an already truncated title changes nothing. |
| Callback.Parse | bot.py:619-626 | `"ignore"` is acknowledged. Other data is a choice if and only if it has exactly one bar, and neither field of a choice contains a bar. |
| Callback.ParseEncode | bot.py:188-202 | A button whose type and selection have no bar reads back as exactly that choice. |
| Callback.EncodeParse | bot.py:623-626 | Accepted data is exactly the encoding of the choice read from it. |
| Formats.VideoOptions | bot.py:140-168 | There are never more options than formats, and exactly as many if and only if every format is offered. A single format yields its own option if it is offered and nothing otherwise. |
| Formats.VideoOptionsMembers | bot.py:139-150 | Every format with video that is not in a switched-off AV1 band gets an option, and nothing else does. There are no options if and only if no format qualifies. |
| Formats.VideoOptionsConcat | bot.py:139-170 | The options keep the resolver's order, because filtering distributes over concatenation. |
| Formats.FormatsMapKeys | bot.py:166-171 | The entry's format map has a key exactly for the ids of the offered formats. |
| Formats.FormatsMapValues | bot.py:166-171 | Each key holds the audio flag and description of the last offered format with that id. |
| Formats.OptionsInMap | bot.py:166-171 | Every option's id is a key of the format map. |
| Formats.KnownSize | bot.py:161 | The size shown is never zero: `filesize` when it is non-zero, else a non-zero `filesize_approx`, else unknown. |
| Formats.DisplayExt | bot.py:163-166 | The extension is `mp4-av1` when the video codec, lower-cased, contains `av01`, and the record's extension (or `bilinmiyor`) otherwise. |
| Formats.DisplayExtIgnoresCase | bot.py:165 | The AV1 test gives the same extension for a codec string and its lower-cased form. |
| Formats.QualityLabelRoundTrip | bot.py:152-158 | Reading a label back gives `<height>p`, plus the truncated frame rate exactly when it is present, non-zero and not 30. A format without a height gives no height. |
| Formats.BestAudioIndex | bot.py:174-183 | There is no best audio if and only if no format is audio-only. Otherwise the result is an audio-only format whose bitrate is at least every other candidate's, and it is the first such format, as `max` picks. |
| Selection.BestAudioInfo | bot.py:175-183 | The entry records no best audio if and only if no format is audio-only. Otherwise it records the id and extension of an audio-only format whose bitrate is at least every candidate's and strictly above every earlier candidate's, the one `max` picks. |
| Selection.AudioButton | bot.py:174-202 | The audio button reads back as `audio\|bestaudio`. It names a summary exactly when an audio-only format exists, and then a format of maximal bitrate with its known size, the same format the entry records for download. |
| Selection.Prepare | bot.py:98-213 | The entry replaces the user's previous one and starts unselected; a resolver failure leaves the blank entry. On success the title defaults to `Video`, the duration to 0, and the thumbnail is kept as given. The map follows the offered formats, and choices are shown if and only if some format is offered. The entry's best audio is the maximal-bitrate audio-only format. The keyboard has one `video\|<id>` button per option, in order, followed by the audio button. |
| Resolution.ResolveTask | bot.py:323-355 | Resolution succeeds if and only if a video id is in the map or an audio choice has a best audio; otherwise it fails with the matching error before any download. The video spec gains `+bestaudio` if and only if the format lacks audio. The audio caption name is the download name plus `.mp3`. |
| Resolution.CaptionName | bot.py:319-352 | The caption file name is the sanitised title plus `.mp4` or `.mp3`, so it never contains a forbidden character. |
| Resolution.ShownButtonsResolve | bot.py:188-202 | When no format id contains a bar, the i-th shown video button reads back as the i-th option's id and resolves against the recorded entry. The audio button resolves if and only if an audio-only format existed. |
| Splitter.CeilDiv | bot.py:462-463 | The integer ceiling of a division: its product with the divisor covers the dividend, and one less would not. |
| Splitter.CeilDivLeast | bot.py:462-463 | No smaller quotient covers the dividend. |
| Splitter.PartSize | bot.py:454-466 | The part size is positive and never above the ceiling. It equals the ceiling in fixed mode. In equal mode it yields exactly as many parts as the ceiling would. |
| Splitter.ChunkSizes | bot.py:469-478 | Every piece `split -b` writes is non-empty and at most the part size. All but the last are exactly the part size, and the pieces add up to the file. |
| Splitter.ChunkCount | bot.py:469-478 | The number of pieces is the ceiling of size over part size. |
| Splitter.LastChunk | bot.py:469-478 | The last piece holds what the full pieces before it leave. |
| Splitter.EqualSplitBalanced | bot.py:460-463 | Equal splitting yields the fewest possible parts, and the last falls short of the others by fewer bytes than there are parts. |
| Splitter.Chunk | bot.py:469-478 | Concatenating the pieces in order gives the file back byte for byte, and their sizes are those `ChunkSizes` gives. |
| Splitter.FixedSplitExample | bot.py:454-466 | A 5,000,000,000-byte file is split in fixed mode into 2,097,152,000 + 2,097,152,000 + 805,696,000 bytes. |
| Splitter.EqualSplitExample | bot.py:460-463 | The same file is split in equal mode into 1,666,666,667 + 1,666,666,667 + 1,666,666,666 bytes. |
| Throttle.EffectiveInterval | bot.py:30-31 | The interval in force is never zero: a falsy setting becomes 7, and any other setting is kept. |
| Throttle.StartHook | bot.py:362 | A hook starts with the phase's clock reading and a non-zero interval: the setting when non-zero, else 7. |
| Throttle.OnSample | bot.py:364-381 | "finished" always renders and keeps the state, and nothing else renders as finished. A download report renders progress if and only if at least the interval has passed since the last render, and then records its time; otherwise nothing renders and the state is kept. |
| Throttle.RunSpaced | bot.py:362-381 | Over any sequence of reports, rendered updates come at least one interval after the phase start and at least one interval apart. Every "finished" report renders exactly once. |
| Throttle.RunTimesAreSamples | bot.py:362-381 | Every rendered time is the clock reading of some report. |
| Throttle.SpacedBound | bot.py:498-511 | Spaced updates within `T` seconds of the start number at most `T / interval`. |
| Throttle.RateLimit | bot.py:498-511 | With a positive interval, reports within `T` seconds of the phase start render at most `T / interval` progress updates. |
| Delivery.CountTrue | bot.py:533-536 | The forwarded count is at most the number of sent pieces, and equals it if and only if every forward worked. |
| Delivery.CountTrueCounts | bot.py:533-536 | The forwarded count is the number of sent pieces whose forward worked. |
| Delivery.FirstRejected | bot.py:513-543 | This is the first rejected send: every earlier send is accepted. |
| Delivery.DeliverParts | bot.py:513-543 | The delivered pieces are exactly those before the first rejected send, in order. The loop succeeds if and only if the host accepts every piece. Failed forwards are only counted. |
| Pipeline.Pieces | bot.py:452-476 | What is sent adds up to the file and has no piece above the ceiling. A file up to the ceiling is sent whole. A larger file is sent as the pieces of the part size handed to `split -b`: every piece but the last has that size, there are as many as the size fits into the file rounded up, the same count as fixed 2,097,152,000-byte parts, and always at least two. |
| Pipeline.ProcessTask | bot.py:312-602 | The job succeeds if and only if the entry exists, the choice resolves, the file is produced, splitting works when needed, and every piece is accepted. Nothing is downloaded without a resolved plan. The missing-entry error occurs if and only if there is no entry, the resolution error if and only if the choice does not resolve, and each send error if and only if delivery was reached and some piece was rejected, split or not. Once delivery is reached, the delivered pieces are those before the first rejection and the forwards are counted over them; before that nothing is sent. |
| Scheduler.Open | bot.py:105-113 | Recording a link replaces the user's entry even while busy. It keeps the busy flag, the backlog and every other user. |
| Scheduler.Submit | bot.py:629-652 | An idle user's choice sets busy, and starts a job if and only if the answer goes through; otherwise the user stays busy with no job. A busy user's choice is appended with a copy of the current entry when the position message goes out, and its position is the new backlog length. With no entry, or a failed position message, nothing is queued. Other users are untouched. |
| Scheduler.SubmitGuarded | bot.py:645-652 | With the answer guarded, an idle user's choice always starts its job, and everything else is as in `Submit`. |
| Scheduler.Begin | bot.py:313-318 | A job starts on the user's current entry and marks it selected. With no entry it fails and nothing changes. |
| Scheduler.Complete | bot.py:604-615 | A non-empty backlog gives up its head, whose copy becomes the entry, and the user stays busy. An empty backlog makes the user idle and discards the entry. |
| Scheduler.Timeout | bot.py:67-76 | The timer discards the entry if and only if there is one and it is not marked selected. Otherwise nothing changes. |
| Scheduler.ChainDrains | bot.py:297-310 | `process_task` followed by its synchronous hand-overs runs the whole backlog in order, then leaves the user idle, touching no other user. |
| Scheduler.ChainRaised | bot.py:302-305 | An exception leaves the job thread if and only if some job of the synchronous chain raised. |
| Scheduler.ChainDeleted | bot.py:302-310 | A job's status message is deleted if and only if that job returned `True` and no job the chain ran after it raised. |
| Scheduler.ChainIgnoresOutcome | bot.py:302-305 | The queue advances and ends the same way whether each job succeeded, failed or raised. |
| Scheduler.SucceededButKept | bot.py:302-310 | A successful job keeps its status message when the job handed over after it raises. |
| Scheduler.HandOverRunsSnapshot | bot.py:606-610 | The job a hand-over starts reads the queued copy of the entry, marked selected. |
| Scheduler.TimeoutAfterBegin | bot.py:67-76 | After a job has begun on the entry, the timer changes nothing. |
| Scheduler.DrainInOrder | bot.py:604-615 | From a busy state, the next `\|backlog\|` hand-overs start the backlog's tasks in order and the user stays busy; one more hand-over leaves the user idle. |
| Scheduler.QueuedChoiceRunsLast | bot.py:629-639 | A choice made while busy starts after everything already queued, with the entry as it was when chosen. |
| Scheduler.SnapshotIsolated | bot.py:636 | Recording a new link, starting a job and the timer never change the queued copies. |
| Scheduler.TimerNotScopedToEntry | bot.py:67-76 | A timer discards a later, unselected entry of the same user. |
| Scheduler.QueuedChoiceStillExpires | bot.py:629-639 | A choice queued while busy leaves the live entry unselected, so the timer still cancels it, although the queued copy holds that entry. |
| Scheduler.ChoiceWithoutEntryDropped | bot.py:629-639 | A choice made while busy with no entry is reported with a position and then lost, with the state unchanged. |
| Scheduler.IdleDiscardsFreshEntry | bot.py:612-615 | The last hand-over discards an entry recorded while the job ran. |
| Traces.StartInv | bot.py:53-56 | With the dictionaries empty, every user is idle with nothing running or queued. |
| Traces.ChooseInv | bot.py:629-652 | A choice keeps the invariant: at most one job runs, and only while the user is busy (with the guarded handler, exactly while busy); what was queued is what was taken followed by the backlog. |
| Traces.EndJobInv | bot.py:604-615 | A job's end followed by the hand-over keeps the invariant. |
| Traces.StepInv | bot.py:604-652 | Every allowed handler call keeps the invariant. |
| Traces.RunInv | bot.py:604-652 | The invariant holds after any allowed sequence of handler calls. |
| Traces.SingleFlightAndFifo | bot.py:629-652 | From the start, no user ever has two jobs running, and a job runs only while its user is busy; with the guarded handler a busy user always has one running. Queued tasks start in the order they were queued, each once, and the rest are still waiting. |
| Traces.GuardedNeverStranded | bot.py:645-652 | With the guarded handler, no reachable state has a busy user without a running job. |
| Traces.StrandedForever | bot.py:645-652 | Once a user is busy with no job running, every later run keeps the user busy, runs no job of theirs and starts nothing from their backlog. |
| Traces.FailedAnswerStrands | bot.py:645-652 | An idle user's choice whose answer raises leaves the user busy with no job running. |

## Left out

- Telegram I/O (messages, edits, inline keyboards, uploads, forwards) is reduced to success or failure inputs where a failure changes the outcome: the answer and position message in `quality_chosen`, the sends and forwards of a job, and a job that raises. Guarded edits only log, so they are not modelled. Status texts, captions and log messages are not modelled.
- yt-dlp, `requests` and PIL are not modelled. Metadata extraction, downloading, the search API, thumbnail fetching and conversion, and the cookies download are foreign calls. The resolver's answer is an input record list, and the download's result is an input.
- The search handlers (`handle_link` and `search_result_callback`) are not modelled, except the title cut. They only call the resolver and the API.
- The glob over the part files is not modelled. Whether the parts were found is an input; a title with glob metacharacters such as `[` could make the glob miss the parts, and that case is not analysed.
- Threads, `time.sleep(60)` and races between handlers on the shared dictionaries are left out; each handler is one atomic step. A race between `check_next` removing an emptied queue and a concurrent choice appending to it could lose that choice, and this is not modelled.
- Throttle.OnSample: one clock reading serves both the comparison and the recorded time, while the hooks read `time.time()` twice. The second reading is at least the first, so the spacing proved holds a fortiori.
- Floating-point output (percentages, ETA, the `MB` strings) is not modelled. Clock readings are whole seconds, and sizes stay byte counts.
- Splitter.PartSize: Python's float `math.ceil(S / C)` is taken as exact integer ceiling division. Float rounding of very large sizes is not modelled.
- Helpers.FormatDuration: only integer durations are modelled. A float or `None` duration would make the `02d` format raise.
- Formats.DisplayExt: lower-casing is ASCII-only. Non-ASCII case mapping cannot produce or break the substring `av01`.
- Keys present with the value `None` (for example `abr` or `duration`) are not modelled separately from missing keys. A present `None` would make Python's `max` or the formatting raise.
- `ALLOWED_USERS` checks and logging are administrative glue. The status-message-less branches of `prepare_video_info_and_show_quality` are never reached by its callers.
- The catch-all "unexpected error" branch of `_process_task` is not modelled. It covers exceptions from the file system outside the modelled inputs.

## Findings

| source | as written | input that shows it | evidently intended | confidence | as-written member | corrected member |
|---|---|---|---|---|---|---|
| bot.py:645-652 | An idle user is marked busy, then `callback_query.answer` is called without a guard, and only then is the job thread started. | An idle user's choice for which the answer raises: no job starts, nothing ever calls `check_next`, the user stays busy, and every later choice is queued and never started. | The answer is guarded like the surrounding Telegram calls (or the thread is started first), so that a busy user always has a job that will hand over. | medium, not executed | Scheduler.Submit, Traces.StrandedForever, Traces.FailedAnswerStrands | Scheduler.SubmitGuarded, Traces.GuardedNeverStranded |
