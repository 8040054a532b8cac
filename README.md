# Video-to-subtitle pipeline, modelled in Dafny

This project models the core of a small web service that turns an uploaded
video into an Advanced SubStation Alpha (`.ass`) subtitle file. The service
is `app.py`. It has four pieces of sequential logic, and each is one module
here:

- `Upload` (`upload.dfy`): the upload gate `allowed_file` and the file names
  derived from a video path. The audio file is `stem + ".wav"` and the
  subtitle file is `stem + ".ass"`, where the stem is the text before the
  last dot (`rsplit('.', 1)[0]`). The module also covers the join of the
  upload folder and the file name.
- `Engine` (`engine.dfy`): the chunked transcription engine. The audio is a
  sequence of 16-bit frames, cut into `nframes // 40000` windows of 40,000
  frames each. Every window goes to an abstract recogniser. The results with
  non-empty text are collected in completion order (`as_completed`). That
  order is a ghost permutation chosen by the method.
- `Subtitle` (`subtitle.dfy`): `create_ass_subtitle`. The document is a
  sequence of lines:
  - a twelve-line header carrying the probed resolution and one `Default`
    style with font size `height // 20`;
  - one `Dialogue:` line per transcript entry with a text, each two seconds
    long, with times rendered as `str(timedelta)` cut at the first dot.
- `Tasks` (`tasks.dfy`): the in-memory task registry and the status
  lifecycle of `process_video`.
  - `TaskRegistry` is a class. It holds:
    - the `tasks` map of `TaskRecord` objects, which the pipeline updates in
      place;
    - the subtitle files written;
    - the audio files left on disk.
  - `Run` is a pure function. It gives the statuses, result and files of one
    run for each behaviour of the external tools, which is described by an
    `Environment` value.
  - The methods are proved against `Run`, and the lifecycle properties are
    proved about `Run`.

`Text` (`text.dfy`) holds decimal rendering and parsing (`str(int)`, `%02d`)
with their round trips, and the part of `str.lower` that matters for the
extension test. `Wrappers` (`wrappers.dfy`) holds `Option` and `Result`.

The model follows the code as written, including these behaviours:
- The collected transcript is never sorted back into window order.
  `Engine.CompletionOrderMayDiffer` shows two windows whose transcript comes
  out reversed.
- A trailing part shorter than a window is never read.
- The model-missing error is raised only once transcription starts, after
  the audio has been extracted.
- The extracted audio file stays on disk when a later stage fails.
- The subtitle file is written in place, not atomically.

## Model

| member | source | states |
|---|---|---|
| Upload.LastDotSpec | app.py:30 | There is no last dot exactly when the name holds no `.`; otherwise it is a position holding `.` with no `.` after it |
| Upload.RSplitDot | app.py:30 | Computes `rsplit('.', 1)`; no contract of its own, characterised by `Upload.RSplitDotSpec` |
| Upload.RSplitDotSpec | app.py:30 | `rsplit('.', 1)` gives one part (the whole name) exactly when there is no dot, otherwise two parts that rejoin with `.` into the name, the second holding no dot |
| Upload.AllowedFileIff | app.py:24-30 | A name is accepted exactly when it ends in `.` followed by one of `mp4`, `avi`, `mov`, `mkv` in any letter case |
| Upload.AcceptedExamples | app.py:29-30 | `a.tar.MP4`, `.mkv` and a name whose extension lower-cases to `mkv` are accepted |
| Upload.RefusedExamples | app.py:29-30 | `mp4`, `a.mp4.txt` and `movie.` are refused |
| Upload.Stem | app.py:58 | Computes `rsplit('.', 1)[0]`, the stem used at lines 58 and 73; no contract of its own, characterised by `Upload.StemSpec` |
| Upload.StemSpec | app.py:58 | The stem is a prefix of the path; it is the whole path exactly when there is no dot, and otherwise stops at the last dot |
| Upload.SiblingPaths | app.py:58-73 | The audio and subtitle paths share the video's stem, end in `.wav` and `.ass`, and differ |
| Upload.AllowedFile | app.py:29-30 | Computes `allowed_file`; it has no contract of its own and is characterised by `Upload.AllowedFileIff` and `Upload.AllowedFileIgnoresCase` |
| Upload.AllowedFileIgnoresCase | app.py:30 | A name and its lower case are accepted or refused together |
| Upload.AudioPath | app.py:73 | Computes the `.wav` path beside the video; no contract of its own, characterised by `Upload.SiblingPaths` |
| Upload.SubtitlePath | app.py:58 | Computes the `.ass` path beside the video; no contract of its own, characterised by `Upload.SiblingPaths` |
| Upload.UploadPath | app.py:150 | Computes `os.path.join('uploads', name)`; no contract of its own, characterised by `Upload.UploadPathSpec` |
| Upload.UploadPathSpec | app.py:150 | The stored path ends with the name; it equals the name exactly when the name is absolute; for a relative name the upload and its `.wav` and `.ass` siblings all lie under `uploads/` |
| Text.NatTextDigits | app.py:116-117 | `str(n)` is a non-empty run of digits with no leading zero |
| Text.NatTextRoundTrip | app.py:116-117 | `str(n)` reads back as `n` |
| Text.IntTextRoundTrip | app.py:116-117 | `str(x)` for any integer, sign included, reads back as `x` |
| Text.Pad2RoundTrip | app.py:129 | A two-digit field `%02d` reads back as its value |
| Text.Lower | app.py:30 | Computes `str.lower` for the characters whose lower case is one ASCII letter (A to Z and the Kelvin sign) and keeps every other character; no contract of its own, characterised by `Text.LowerIdempotent` |
| Text.LowerIdempotent | app.py:30 | Lower-casing leaves no letter A to Z behind, and lower-casing twice equals lower-casing once |
| Engine.Windows | app.py:94-99 | Computes the windows read from the stream; no contract of its own, characterised by `Engine.WindowsAt` and `Engine.WindowsCoverPrefix` |
| Engine.WindowsAt | app.py:87-99 | Exactly `nframes // 40000` windows are read; window `i` is frames `40000*i` to `40000*(i+1)` of the stream |
| Engine.WindowsCoverPrefix | app.py:94-96 | The windows, joined, are the stream up to its last full window; what is left is shorter than a window and never read |
| Engine.ProgressIndicesAt | app.py:95-101 | The progress indices below `upto` are `0, 10, 20, ...`, one per started group of ten windows |
| Engine.Transcript | app.py:103-106 | Computes the results with text in a given completion order; no contract of its own, characterised by `Engine.TranscriptEntries`, `Engine.PermutedTranscript` and `Engine.CollectAsCompleted` |
| Engine.TranscriptEntries | app.py:103-106 | Every collected entry has non-empty text and is the result of a visited window |
| Engine.PermutedTranscript | app.py:103-106 | Two completion orders that visit the same windows collect the same entries as a multiset |
| Engine.TranscriptSplice | app.py:103-106 | Taking one window out of a completion order takes exactly its result out of the collected multiset |
| Engine.Collected | app.py:103-106 | The outcomes the collection loop can have: for some completion order visiting every window once, the results with text when every recognition succeeded, or one failing window's error; no contract of its own, characterised by `Engine.CollectedOutcome` and `Engine.CollectAsCompleted` |
| Engine.CollectedOutcome | app.py:103-106 | For any completion order, collecting succeeds exactly when every window is recognised; the entries are then the window-order transcript up to permutation, each with text |
| Engine.CollectAsCompleted | app.py:103-106 | The collection loop fails with one window's error when one fails, otherwise returns the transcript of its completion order, which is a permutation of all windows |
| Engine.CompletionOrderMayDiffer | app.py:103-106 | With two windows whose texts differ, the completion order `[1, 0]` yields a transcript that is not in window order |
| Subtitle.FontSize | app.py:121 | `height // 20` is the largest size with `20 * size <= height`, negative heights included |
| Subtitle.Clock | app.py:129-130 | Computes `str(timedelta(seconds=n))` for whole seconds; no contract of its own, characterised by the lemmas below |
| Subtitle.ClockHasNoDot | app.py:129-130 | The rendering of whole seconds holds no `.`, so cutting at the first dot keeps all of it |
| Subtitle.ClockFields | app.py:129-130 | Below one day the time text is the whole hours, the minutes past the hour and the seconds past the minute, which add back up to the time |
| Subtitle.ParseClockFields | app.py:129-130 | `H:MM:SS` built from its fields starts with the unpadded hours and reads back as `3600*H + 60*MM + SS` |
| Subtitle.ClockRoundTrip | app.py:129-130 | Below one day the time text starts with the hours unpadded, as `str` writes them, is followed by `:MM:SS`, and reads back as its number of seconds |
| Subtitle.DayPrefix | app.py:129 | From one day on, the text is the day count, then `day, ` for one day or `days, ` for more, then the clock of the time left over within the day |
| Subtitle.OneDay | app.py:129 | One example: 86,400 seconds render as `1 day, 0:00:00` |
| Subtitle.TwoDays | app.py:129 | One example: two days and 3,661 seconds render as `2 days, 1:01:01` |
| Subtitle.BeforeDot | app.py:129-130 | `split('.')[0]` is the prefix before the first dot, the whole text when it has none |
| Subtitle.Timeline | app.py:125-133 | Computes the events the cursor loop writes; no contract of its own, characterised by `Subtitle.TimelineAt` |
| Subtitle.TimelineAt | app.py:125-133 | Event `i` shows the `i`-th text and runs from `2*i` to `2*(i+1)` seconds after the cursor's start |
| Subtitle.CaptionsOfTexts | app.py:105-127 | When every entry has a text, as the engine guarantees, there is one caption per entry, in order |
| Subtitle.CreateAssSubtitle | app.py:111-133 | The writing loop produces exactly the header followed by one rendered event per entry with a text |
| Subtitle.HeaderLine | app.py:114-123 | Computes the twelve header lines; no contract of its own, characterised by `Subtitle.ResolutionLines`, `Subtitle.StyleLine` and `Subtitle.HeaderLayout` |
| Subtitle.Document | app.py:114-133 | Computes the whole script, header then events; no contract of its own, characterised by `Subtitle.CreateAssSubtitle` and the document lemmas |
| Subtitle.DocumentAt | app.py:125-133 | Line `12 + i` of the document is event `i`, from `2*i` to `2*(i+1)` seconds, with the `i`-th text |
| Subtitle.DocumentEvents | app.py:125-133 | The document has twelve header lines plus one line per text; consecutive events abut and never overlap |
| Subtitle.DialogueLines | app.py:114-133 | The document holds exactly one `Dialogue:` line per text, none of them among the twelve header lines |
| Subtitle.ResolutionLines | app.py:116-117 | The `PlayResX`/`PlayResY` values read back as the probed width and height |
| Subtitle.StyleLine | app.py:121 | The Default style's font-size field, closed by a comma and followed by the fixed style fields, reads back as `height // 20` |
| Subtitle.HeaderLayout | app.py:114-123 | The header reads `[Script Info]`; its `PlayResX`/`PlayResY` values read back as the probed width and height; the style's font-size field, closed by a comma, reads back as `height // 20`; it ends with `[Events]` and its format line |
| Subtitle.EventTimes | app.py:128-132 | Below one day, the start and end fields of event `i` read back as `2*i` and `2*(i+1)` seconds |
| Tasks.Label | app.py:47-69 | Computes the status strings written at lines 47-69 and 101; no contract of its own, characterised by `Tasks.LabelCompleted` and `Tasks.LabelNeverNotFound` |
| Tasks.LabelCompleted | app.py:174 | The status text is `Completed` exactly for the completed status |
| Tasks.LabelNeverNotFound | app.py:167 | No status text is `Not found` |
| Tasks.ProgressHundredths | app.py:101 | Computes the progress `i/total` in hundredths; no contract of its own, characterised by `Tasks.ProgressHundredthsSpec` and `Tasks.ProgressMonotone` |
| Tasks.ProgressHundredthsSpec | app.py:101 | The progress in hundredths lies in 0..100, within half a hundredth of `i/total`, with ties going to the even neighbour |
| Tasks.ProgressMonotone | app.py:101 | The progress never decreases as the window index grows |
| Tasks.ProgressTraceStep | app.py:100-101 | Reading window `i` appends a progress status exactly when `i % 10 == 0` |
| Tasks.ProgressTraceAt | app.py:95-101 | There is one progress status per progress index, showing that index as a fraction of the total |
| Tasks.ProgressNondecreasing | app.py:95-101 | The progress statuses written are in non-decreasing order |
| Tasks.Synthesis | app.py:55-69 | The stage after a transcript writes `Transcription complete` first and at least one more status |
| Tasks.Conclusion | app.py:54-69 | What follows the transcription writes at least one status, and the audio file has been extracted by then |
| Tasks.TranscribeTrace | app.py:95-101 | Computes the progress statuses of the reading loop, none when the model or the audio is missing; no contract of its own, characterised by `Tasks.ProgressTraceAt`, `Tasks.ProgressNondecreasing` and `Tasks.TaskRegistry.TranscribeAudio` |
| Tasks.TranscriptionOutcome | app.py:89-106 | The outcomes of the transcription stage, in failure order: the missing model first, then the unreadable audio, then what collecting can yield; no contract of its own, established by `Tasks.TaskRegistry.TranscribeAudio` and used by `Tasks.RunCompletes` and `Tasks.RunDocument` |
| Tasks.Run | app.py:45-69 | Every run first writes `Processing` and writes at least one more status |
| Tasks.ExtractedRun | app.py:47-54 | After a successful extraction a run writes `Processing`, `Audio extracted`, the progress, then the later stages, and ends as they do |
| Tasks.ExtractedEffect | app.py:47-69 | The effect of the stages after extraction on the history, files and audio files is the run's effect |
| Tasks.RunStages | app.py:45-69 | A run ends with `Completed` exactly when it is the full success trace; otherwise it follows that trace and then stops with one error |
| Tasks.SynthesisStages | app.py:55-69 | After a transcript, the run completes or stops with an error right after `Transcription complete` or `Subtitle created` |
| Tasks.SuccessTraceOrdered | app.py:47-65 | The successful statuses rise through the stages, and none before the last is terminal |
| Tasks.RunTraceOrdered | app.py:45-69 | From `Queued` on, a task's statuses never go back a stage, and exactly the last is terminal |
| Tasks.RunResult | app.py:58-66 | A result is recorded exactly when a task completes; it is the video's `.ass` sibling, which was written, and the audio file is removed exactly then |
| Tasks.RunCompletes | app.py:45-69 | A task completes exactly when extraction, model, audio, every window, the probe, the write and the removal all succeed |
| Tasks.RunDocument | app.py:54-59 | The written subtitle holds one `Dialogue:` line per collected entry, and the entries are the window-order transcript up to permutation |
| Tasks.TaskRecord.constructor | app.py:154 | A new record is `Queued` with no result |
| Tasks.TaskRecord.SetStatus | app.py:47 | Setting a status changes the status only, and appends it to the history |
| Tasks.TaskRegistry.constructor | app.py:27 | The registry starts empty |
| Tasks.TaskRegistry.UploadFile | app.py:141-161 | The missing part, the empty name and a refused name each give their error and leave the registry unchanged; otherwise a fresh `Queued` record is added under the new id only |
| Tasks.TaskRegistry.TranscribeAudio | app.py:85-109 | The missing model, then an unreadable audio file, fail first; otherwise one progress status is written per tenth window and the outcome is a possible completion-order collection |
| Tasks.TaskRegistry.ProcessVideo | app.py:45-69 | The processed record's history, status, result, the files written and the audio files left are exactly those of `Run`; no other task's status or result changes; the registry invariant holds |
| Tasks.TaskRegistry.ProcessRecord | app.py:45-69 | The same effect stated on the record passed in |
| Tasks.TaskRegistry.ProcessExtracted | app.py:50-69 | After extraction: `Audio extracted`, the progress, then the later stages' effect; the audio file is added and removed only on completion |
| Tasks.TaskRegistry.Conclude | app.py:54-69 | A failed transcription becomes the error; otherwise the synthesis stage's effect |
| Tasks.TaskRegistry.Synthesize | app.py:55-69 | `Transcription complete`, then the probe or write error, or the written document followed by the finish |
| Tasks.TaskRegistry.WriteSubtitle | app.py:111-133 | The file at the path holds exactly the document; nothing else changes |
| Tasks.TaskRegistry.Finish | app.py:60-66 | `Subtitle created`, then either the removal error or the audio removed, `Completed` and the subtitle path as the result |
| Tasks.TaskRegistry.TaskStatus | app.py:163-169 | An unknown id reads `Not found` with no result, and only an unknown id does; a known one reads its status text and result |
| Tasks.TaskRegistry.DownloadFile | app.py:171-177 | The file is served exactly when a known id is completed with a result, and that file exists |

## Left out

- Flask routing, request parsing, JSON replies, `render_template`, `file.save` and `send_file` are HTTP and I/O. The routes keep only their registry effects and replies.
- `secure_filename` is a foreign library; its output is an arbitrary string parameter. The fresh `uuid4` id is a parameter too.
- `ffmpeg` and `ffprobe` are external processes. Each is an `Environment` field: the extraction's error message if it fails, and the probed resolution or the error probing or parsing it. The parsing of `W,H` is folded into that result.
- The Vosk model and recogniser are opaque. The recogniser is an uninterpreted function from a window to a result or an error. The model-folder check is a boolean.
- Threads, the thread pool and `as_completed` scheduling are concurrency. Dispatch is sequential, and completion order is a nondeterministic permutation.
- Reading the `.wav` file is not modelled: the frames are given, or the error reading them. The `len(chunk) == 0` break is left out because it cannot fire: only full windows are read.
- Writing the `.ass` file is not modelled. A write succeeds whole or fails before anything is written; a partially written file is not modelled.
- `os.remove` is modelled only as the removal of the audio path from the set of files on disk, or as its error.
- Timing (`time.time()`) and logging are side output.
- Tasks.ProgressHundredthsSpec: rounds the exact fraction `i / total` to hundredths, with ties to even. Python's `:.2f` rounds the binary double nearest to that fraction, so the two can differ on ties that are not exactly representable.
- Text.Lower: only A to Z and the Kelvin sign are lower-cased. Python's full case mapping can also lengthen a string (`'İ'.lower()` has two characters), but every other character's lower case is itself or holds a non-ASCII character, so whether an extension is one of the four accepted words is decided the same way.
- Subtitle.DialogueLines: the document is a sequence of strings, each written with a newline after it. A recognised text that itself holds a newline would make one entry several lines of the file. The recogniser is uninterpreted, so such a text is possible in the model, and then `DialogueLines` counts entries of the sequence, not lines of the file.
- The subtitle cursor is a float in the source. It only ever holds even whole numbers, so it is a natural number of seconds.
- Subtitle.ClockRoundTrip: the read-back is stated only below one day, where the text is `H:MM:SS`. From one day on, `Clock` renders the `N day(s), ` prefix as `timedelta` does, as `Subtitle.DayPrefix` states.
- Engine.CollectAsCompleted: a recognition that raises ends collection when its result is reached; which error surfaces first depends on the completion order. The model states only that it is one of the failing windows' errors.
- The `index` route and the start-up creation of the upload folder are I/O only.
