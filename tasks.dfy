/** The registry of tasks and the lifecycle of each task: an upload registers a
    queued task, the processing pipeline moves it through its statuses
    (extraction, transcription, subtitle synthesis, clean-up) until it is
    completed or an exception turns it into an error, and the status and
    download routes read the registry. The external tools and the speech
    recogniser are parameters: an `Environment` says what each of them does
    for the video at hand. */
module Tasks {
  import opened Wrappers
  import opened Text
  import opened Upload
  import opened Engine
  import opened Subtitle

  type TaskId = string

  /** A task's status. `Transcribing` carries the progress fraction in
      hundredths; `Error` carries the exception's message. */
  datatype Status =
    | Queued
    | Processing
    | AudioExtracted
    | Transcribing(hundredths: nat)
    | TranscriptionComplete
    | SubtitleCreated
    | Completed
    | Error(message: string)

  /** The status text stored in the registry and shown to clients. */
  function Label(s: Status): string
  {
    match s
    case Queued => "Queued"
    case Processing => "Processing"
    case AudioExtracted => "Audio extracted"
    case Transcribing(h) => "Transcribing: " + NatText(h / 100) + "." + Pad2(h % 100)
    case TranscriptionComplete => "Transcription complete"
    case SubtitleCreated => "Subtitle created"
    case Completed => "Completed"
    case Error(message) => "Error: " + message
  }

  /** What `task_status` reports for an id the registry does not hold. */
  const NotFound: string := "Not found"

  /** The message of the error `get_model` raises when the model folder is
      missing. */
  const ModelMissing: string :=
    "Vosk model not found. Please download the Arabic model and place it in 'vosk-model-arabic'"

  /** The registry compares status texts; only `Completed` reads as
      "Completed", so the download route's test is a test of the status. */
  lemma LabelCompleted(s: Status)
    ensures Label(s) == "Completed" <==> s == Completed
  {
    if s.Transcribing? || s.Error? {
      assert Label(s)[0] != 'C';
    }
  }

  /** No status reads as "Not found": a client can tell an unknown id from
      every known one. */
  lemma LabelNeverNotFound(s: Status)
    ensures Label(s) != NotFound
  {
    assert NotFound[0] == 'N';
    assert Label(s)[0] != 'N';
  }

  function Distance(a: int, b: int): nat
  {
    if a >= b then a - b else b - a
  }

  /** With `n == q * total + r`, the candidates `q` and `q + 1` lie `r` and
      `total - r` away from `n` in units of `1 / total`. */
  lemma RoundingCandidates(n: nat, total: nat, q: nat, r: nat)
    requires total > 0 && n == q * total + r && r < total
    ensures Distance(n, q * total) == r
    ensures Distance(n, (q + 1) * total) == total - r
  {
    assert (q + 1) * total == q * total + total;
  }

  lemma MulMonotone(a: nat, b: nat, c: nat)
    requires a <= b
    ensures a * c <= b * c
  {
  }

  /** `i / total` in hundredths, rounded to the nearest, ties to even: the
      number `{i/total:.2f}` writes. */
  function ProgressHundredths(i: nat, total: nat): nat
    requires i < total
  {
    var q, r := (100 * i) / total, (100 * i) % total;
    if 2 * r < total || (2 * r == total && q % 2 == 0) then q else q + 1
  }

  /** The hundredths lie between 0 and 100, at most half a hundredth from
      the exact fraction, and an exact tie goes to the even neighbour. */
  lemma ProgressHundredthsSpec(i: nat, total: nat)
    requires i < total
    ensures var h := ProgressHundredths(i, total);
      && h <= 100
      && 2 * Distance(100 * i, h * total) <= total
      && (2 * Distance(100 * i, h * total) == total ==> h % 2 == 0)
  {
    var q, r := (100 * i) / total, (100 * i) % total;
    RoundingCandidates(100 * i, total, q, r);
    assert q < 100 by {
      if q >= 100 {
        MulMonotone(100, q, total);
      }
    }
  }

  /** The progress shown never goes backwards as the window index grows. */
  lemma ProgressMonotone(i1: nat, i2: nat, total: nat)
    requires i1 <= i2 < total
    ensures ProgressHundredths(i1, total) <= ProgressHundredths(i2, total)
  {
    ProgressHundredthsSpec(i1, total);
    ProgressHundredthsSpec(i2, total);
    NearestMonotone(100 * i1, 100 * i2, ProgressHundredths(i1, total), ProgressHundredths(i2, total), total);
  }

  /** Rounding to the nearest multiple of `total`, ties to an even
      multiple, is monotone. */
  lemma NearestMonotone(a: nat, b: nat, h1: nat, h2: nat, total: nat)
    requires a <= b && total > 0
    requires 2 * Distance(a, h1 * total) <= total && (2 * Distance(a, h1 * total) == total ==> h1 % 2 == 0)
    requires 2 * Distance(b, h2 * total) <= total && (2 * Distance(b, h2 * total) == total ==> h2 % 2 == 0)
    ensures h1 <= h2
  {
    if h1 > h2 {
      var x1, x2, d := h1 * total, h2 * total, h1 - h2;
      assert x1 - x2 == d * total;
      MulMonotone(1, d, total);
      assert x1 == x2 + total;
      MulCancel(d, 1, total);
    }
  }

  lemma MulCancel(a: nat, b: nat, c: nat)
    requires c > 0 && a * c == b * c
    ensures a == b
  {
  }

  /** The progress statuses written while windows `0 .. upto - 1` out of
      `total` are read: entry `k` is written at window `10 * k` and shows
      that window's index as a fraction of the total. */
  function ProgressTrace(upto: nat, total: nat): seq<Status>
    requires upto <= total
  {
    seq((upto + 9) / 10, k requires 0 <= k < (upto + 9) / 10 => Transcribing(ProgressHundredths(10 * k, total)))
  }

  /** Reading window `i` adds a progress entry exactly when `i` is a
      multiple of 10. */
  lemma ProgressTraceStep(i: nat, total: nat)
    requires i < total
    ensures ProgressTrace(i + 1, total)
      == ProgressTrace(i, total) + (if i % 10 == 0 then [Transcribing(ProgressHundredths(i, total))] else [])
  {
    var before, after := ProgressTrace(i, total), ProgressTrace(i + 1, total);
    var added := if i % 10 == 0 then [Transcribing(ProgressHundredths(i, total))] else [];
    assert |after| == |before| + |added| by {
      assert (i + 10) / 10 == (i + 9) / 10 + (if i % 10 == 0 then 1 else 0);
    }
    forall k | 0 <= k < |after|
      ensures after[k] == (before + added)[k]
    {
      if k == |before| {
        assert 10 * k == i;
      }
    }
  }

  /** There is one progress entry per progress index of the reading loop,
      each showing its index as a fraction of the total. */
  lemma ProgressTraceAt(upto: nat, total: nat)
    requires upto <= total
    ensures |ProgressTrace(upto, total)| == |ProgressIndices(upto)|
    ensures forall k :: 0 <= k < |ProgressIndices(upto)| ==>
      ProgressIndices(upto)[k] < upto && ProgressTrace(upto, total)[k] == Transcribing(ProgressHundredths(ProgressIndices(upto)[k], total))
  {
    ProgressIndicesAt(upto);
  }

  /** The progress statuses are in non-decreasing order of their fraction. */
  lemma ProgressNondecreasing(total: nat, k1: nat, k2: nat)
    requires k1 <= k2 < |ProgressTrace(total, total)|
    ensures var p := ProgressTrace(total, total);
      p[k1].Transcribing? && p[k2].Transcribing? && p[k1].hundredths <= p[k2].hundredths
  {
    ProgressMonotone(10 * k1, 10 * k2, total);
  }

  /** What the external collaborators do for one video: the message of the
      failing `ffmpeg` run, if it fails; whether the model folder exists; the
      frames of the extracted audio or the error reading it; the recogniser;
      the probed resolution or the error probing or parsing it; the error
      opening or writing the subtitle file, if any; the error removing the
      audio file, if any. */
  datatype Environment = Environment(
    extraction: Option<string>,
    modelInstalled: bool,
    wav: Result<seq<Frame>>,
    recognize: Recognizer,
    probe: Result<Resolution>,
    writeError: Option<string>,
    removeError: Option<string>)

  /** The statuses the transcription stage writes: the progress entries,
      once the model and the audio are available. */
  function TranscribeTrace(env: Environment): seq<Status>
  {
    if env.modelInstalled && env.wav.Success? then
      var total := WindowCount(|env.wav.value|);
      ProgressTrace(total, total)
    else []
  }

  /** The outcomes the transcription stage can have: the missing model is
      reported first, then an unreadable audio file, and otherwise what the
      engine collects for some completion order. */
  ghost predicate TranscriptionOutcome(env: Environment, out: Result<seq<Recognition>>)
  {
    if !env.modelInstalled then out == Failure(ModelMissing)
    else if env.wav.Failure? then out == Failure(env.wav.error)
    else Collected(Windows(env.wav.value), env.recognize, out)
  }

  /** What becomes of the extracted audio file. */
  datatype AudioFate = NotExtracted | LeftOnDisk | Removed

  /** The effect of processing one video: the statuses written in order,
      the result recorded, whether the subtitle file was written and the audio
      file's fate. */
  datatype Outcome = Outcome(trace: seq<Status>, result: Option<string>, written: bool, audio: AudioFate)

  /** The stage after a successful transcription, as a function of the
      collaborators: "Transcription complete", then the subtitle is written
      (the probe and the file may fail), then the audio file is removed
      (which may fail too) before the job completes. */
  function Synthesis(videoPath: string, env: Environment): (o: Outcome)
    ensures |o.trace| >= 2 && o.trace[0] == TranscriptionComplete
  {
    if env.probe.Failure? then
      Outcome([TranscriptionComplete, Error(env.probe.error)], None, false, LeftOnDisk)
    else if env.writeError.Some? then
      Outcome([TranscriptionComplete, Error(env.writeError.value)], None, false, LeftOnDisk)
    else if env.removeError.Some? then
      Outcome([TranscriptionComplete, SubtitleCreated, Error(env.removeError.value)], None, true, LeftOnDisk)
    else
      Outcome([TranscriptionComplete, SubtitleCreated, Completed], Some(SubtitlePath(videoPath)), true, Removed)
  }

  /** What follows the transcription stage: its error, or the synthesis
      stage when it returned a transcript. */
  function Conclusion(videoPath: string, env: Environment, collected: Result<seq<Recognition>>): (o: Outcome)
    ensures |o.trace| >= 1 && o.audio != NotExtracted
  {
    if collected.Failure? then Outcome([Error(collected.error)], None, false, LeftOnDisk)
    else Synthesis(videoPath, env)
  }

  /** `process_video` as a function of the collaborators and of what the
      transcription stage returned: "Processing", then the extraction's
      error, or "Audio extracted", the transcription's progress and what
      follows the transcription. */
  function Run(videoPath: string, env: Environment, collected: Result<seq<Recognition>>): (o: Outcome)
    ensures |o.trace| >= 2 && o.trace[0] == Processing
  {
    if env.extraction.Some? then
      Outcome([Processing, Error(env.extraction.value)], None, false, NotExtracted)
    else
      var rest := Conclusion(videoPath, env, collected);
      rest.(trace := [Processing, AudioExtracted] + TranscribeTrace(env) + rest.trace)
  }

  /** The statuses of a run in which nothing fails. */
  function SuccessTrace(env: Environment): seq<Status>
  {
    [Processing, AudioExtracted] + TranscribeTrace(env) + [TranscriptionComplete, SubtitleCreated, Completed]
  }

  function Rank(s: Status): nat
  {
    match s
    case Queued => 0
    case Processing => 1
    case AudioExtracted => 2
    case Transcribing(_) => 3
    case TranscriptionComplete => 4
    case SubtitleCreated => 5
    case Completed => 6
    case Error(_) => 7
  }

  predicate Terminal(s: Status)
  {
    s.Completed? || s.Error?
  }

  /** The statuses appear in lifecycle order. */
  predicate InStageOrder(h: seq<Status>)
  {
    forall i, j :: 0 <= i < j < |h| ==> Rank(h[i]) <= Rank(h[j])
  }

  /** A trace that follows `s` for a while and then stops with an error. */
  lemma StopsEarly(s: seq<Status>, prefix: seq<Status>, t: seq<Status>)
    requires 1 <= |prefix| < |s| && s[..|prefix|] == prefix && s[|s| - 1] == Completed
    requires |t| == |prefix| + 1 && t[..|prefix|] == prefix && t[|t| - 1].Error?
    ensures t != s && t[|t| - 1] != Completed
    ensures 2 <= |t| <= |s| && t[..|t| - 1] == s[..|t| - 1]
  {
  }

  /** A run either passes through every stage and completes, or follows
      the stages up to some point and ends with one error. */
  lemma RunStages(videoPath: string, env: Environment, collected: Result<seq<Recognition>>)
    ensures var t, s := Run(videoPath, env, collected).trace, SuccessTrace(env);
      && (t[|t| - 1] == Completed <==> t == s)
      && (t != s ==> 2 <= |t| <= |s| && t[..|t| - 1] == s[..|t| - 1] && t[|t| - 1].Error?)
  {
    var t, s := Run(videoPath, env, collected).trace, SuccessTrace(env);
    var extracted := [Processing, AudioExtracted] + TranscribeTrace(env);
    assert s == extracted + [TranscriptionComplete, SubtitleCreated, Completed];
    if env.extraction.Some? {
      assert s[..1] == [Processing];
      StopsEarly(s, [Processing], t);
    } else if collected.Failure? {
      assert s[..|extracted|] == extracted;
      StopsEarly(s, extracted, t);
    } else {
      SynthesisStages(videoPath, env, collected);
    }
  }

  /** After a successful extraction the run writes "Processing", "Audio
      extracted", the progress, then what follows the transcription, and
      ends as that does. */
  lemma ExtractedRun(videoPath: string, env: Environment, collected: Result<seq<Recognition>>)
    requires env.extraction.None?
    ensures var o, c := Run(videoPath, env, collected), Conclusion(videoPath, env, collected);
      && o.trace == [Processing, AudioExtracted] + TranscribeTrace(env) + c.trace
      && Last(o.trace) == Last(c.trace)
      && o.result == c.result && o.written == c.written && o.audio == c.audio
  {
    var c := Conclusion(videoPath, env, collected);
    LastOfConcat([Processing, AudioExtracted] + TranscribeTrace(env), c.trace);
  }

  /** The effect of the stages after a successful extraction, as
      `Conclusion` states it, is the effect of the run. */
  lemma ExtractedEffect(videoPath: string, env: Environment, collected: Result<seq<Recognition>>,
                        h0: seq<Status>, h1: seq<Status>, f0: map<string, seq<string>>, f1: map<string, seq<string>>,
                        s0: set<string>, s1: set<string>)
    requires env.extraction.None?
    requires var c := Conclusion(videoPath, env, collected);
      && h1 == h0 + [Processing] + [AudioExtracted] + TranscribeTrace(env) + c.trace
      && f1 == (if c.written then f0[SubtitlePath(videoPath) := Document(collected.value, env.probe.value)] else f0)
      && s1 == (if c.audio == Removed then s0 + {AudioPath(videoPath)} - {AudioPath(videoPath)} else s0 + {AudioPath(videoPath)})
    ensures var o, c := Run(videoPath, env, collected), Conclusion(videoPath, env, collected);
      && h1 == h0 + o.trace && Last(o.trace) == Last(c.trace) && o.result == c.result
      && f1 == (if o.written then f0[SubtitlePath(videoPath) := Document(collected.value, env.probe.value)] else f0)
      && s1 == (if o.audio == NotExtracted then s0
                else if o.audio == LeftOnDisk then s0 + {AudioPath(videoPath)}
                else s0 + {AudioPath(videoPath)} - {AudioPath(videoPath)})
  {
    ExtractedRun(videoPath, env, collected);
    var c := Conclusion(videoPath, env, collected);
    assert h0 + [Processing] + [AudioExtracted] + TranscribeTrace(env) + c.trace
      == h0 + ([Processing, AudioExtracted] + TranscribeTrace(env) + c.trace);
  }

  /** `RunStages` once the transcript is in: the run completes, or stops
      with an error after "Transcription complete" or "Subtitle created". */
  lemma SynthesisStages(videoPath: string, env: Environment, collected: Result<seq<Recognition>>)
    requires env.extraction.None? && collected.Success?
    ensures var t, s := Run(videoPath, env, collected).trace, SuccessTrace(env);
      && (t[|t| - 1] == Completed <==> t == s)
      && (t != s ==> 2 <= |t| <= |s| && t[..|t| - 1] == s[..|t| - 1] && t[|t| - 1].Error?)
  {
    var t, s := Run(videoPath, env, collected).trace, SuccessTrace(env);
    var extracted := [Processing, AudioExtracted] + TranscribeTrace(env);
    var synthesis := Synthesis(videoPath, env).trace;
    ExtractedRun(videoPath, env, collected);
    assert t == extracted + synthesis;
    var complete := extracted + [TranscriptionComplete];
    var created := complete + [SubtitleCreated];
    assert s == created + [Completed];
    if env.probe.Failure? || env.writeError.Some? {
      assert s[..|complete|] == complete;
      assert t == complete + [synthesis[1]];
      StopsEarly(s, complete, t);
    } else if env.removeError.Some? {
      assert s[..|created|] == created;
      assert t == created + [synthesis[2]];
      StopsEarly(s, created, t);
    } else {
      assert synthesis == [TranscriptionComplete, SubtitleCreated, Completed];
    }
  }

  /** Every status before the last of the successful trace is non-terminal
      and the statuses rise through the stages; the progress entries all
      sit at the transcription stage. */
  lemma SuccessTraceOrdered(env: Environment)
    ensures InStageOrder(SuccessTrace(env))
    ensures forall i :: 0 <= i < |SuccessTrace(env)| - 1 ==> !Terminal(SuccessTrace(env)[i])
  {
    var s, p := SuccessTrace(env), TranscribeTrace(env);
    forall i | 0 <= i < |s|
      ensures Rank(s[i]) == (if i == 0 then 1 else if i == 1 then 2 else if i < 2 + |p| then 3 else i - |p| + 2)
    {
      if 2 <= i < 2 + |p| {
        assert s[i] == p[i - 2];
      }
    }
  }

  /** A trace that is the successful one, or a prefix of it ended by one
      error, keeps the successful trace's order after `Queued`. */
  lemma PrefixOrdered(t: seq<Status>, s: seq<Status>)
    requires InStageOrder(s) && forall i :: 0 <= i < |s| - 1 ==> !Terminal(s[i])
    requires |s| > 0 && Terminal(s[|s| - 1]) && Rank(s[0]) > 0
    requires t != s ==> 2 <= |t| <= |s| && t[..|t| - 1] == s[..|t| - 1] && t[|t| - 1].Error?
    ensures InStageOrder([Queued] + t) && Terminal(t[|t| - 1])
    ensures forall i :: 0 <= i < |t| - 1 ==> !Terminal(t[i])
  {
    if t != s {
      forall i, j | 0 <= i < j < |t| ensures Rank(t[i]) <= Rank(t[j]) {
        if j < |t| - 1 {
          assert t[i] == s[i] && t[j] == s[j];
        }
      }
      forall i | 0 <= i < |t| - 1 ensures !Terminal(t[i]) {
        assert t[i] == s[i];
      }
    }
    assert forall i :: 0 <= i < |t| ==> Rank(t[i]) > 0 by {
      forall i | 0 <= i < |t| ensures Rank(t[i]) > 0 {
        if t != s && i < |t| - 1 {
          assert t[i] == s[i];
        }
        if t == s && i > 0 {
          assert Rank(s[0]) <= Rank(s[i]);
        }
      }
    }
    var h := [Queued] + t;
    forall i, j | 0 <= i < j < |h| ensures Rank(h[i]) <= Rank(h[j]) {
      assert h[j] == t[j - 1];
      if i > 0 {
        assert h[i] == t[i - 1];
      }
    }
  }

  /** Lifecycle order: a queued task is processed, its statuses never move
      back to an earlier stage, and exactly the last one is terminal. */
  lemma RunTraceOrdered(videoPath: string, env: Environment, collected: Result<seq<Recognition>>)
    ensures var t := Run(videoPath, env, collected).trace;
      && InStageOrder([Queued] + t)
      && Terminal(t[|t| - 1])
      && forall i :: 0 <= i < |t| - 1 ==> !Terminal(t[i])
  {
    RunStages(videoPath, env, collected);
    SuccessTraceOrdered(env);
    PrefixOrdered(Run(videoPath, env, collected).trace, SuccessTrace(env));
  }

  /** A subtitle path is recorded exactly when a task completes; it is
      the video's sibling `.ass` file, its document was written, and the
      audio file has been removed. */
  lemma RunResult(videoPath: string, env: Environment, collected: Result<seq<Recognition>>)
    ensures var o := Run(videoPath, env, collected);
      && (o.result.Some? <==> o.trace[|o.trace| - 1] == Completed)
      && (o.audio == Removed <==> o.trace[|o.trace| - 1] == Completed)
      && (o.audio == NotExtracted <==> env.extraction.Some?)
      && (o.result.Some? ==> o.result == Some(SubtitlePath(videoPath)) && o.written)
  {
  }

  /** A task completes exactly when every collaborator succeeds and every
      window is recognised; the failing stage's message becomes the error. */
  lemma RunCompletes(videoPath: string, env: Environment, collected: Result<seq<Recognition>>)
    requires env.extraction.None? ==> TranscriptionOutcome(env, collected)
    ensures var t := Run(videoPath, env, collected).trace;
      t[|t| - 1] == Completed <==>
        && env.extraction.None? && env.modelInstalled && env.wav.Success?
        && AllRecognized(Windows(env.wav.value), env.recognize)
        && env.probe.Success? && env.writeError.None? && env.removeError.None?
  {
    if env.extraction.None? && env.modelInstalled && env.wav.Success? {
      CollectedOutcome(Windows(env.wav.value), env.recognize, collected);
    }
  }

  /** The subtitle written holds one `Dialogue:` line per recognised
      window with text, the whole of them in some completion order. */
  lemma RunDocument(videoPath: string, env: Environment, collected: Result<seq<Recognition>>)
    requires env.extraction.None? ==> TranscriptionOutcome(env, collected)
    ensures var o := Run(videoPath, env, collected);
      o.written ==>
        && env.wav.Success? && collected.Success? && env.probe.Success?
        && multiset(collected.value) == multiset(WindowOrderTranscript(Windows(env.wav.value), env.recognize))
        && DialogueCount(Document(collected.value, env.probe.value)) == |collected.value|
  {
    var o := Run(videoPath, env, collected);
    if o.written {
      CollectedOutcome(Windows(env.wav.value), env.recognize, collected);
      CaptionsOfTexts(collected.value);
      DialogueLines(collected.value, env.probe.value);
    }
  }

  function Last(trace: seq<Status>): Status
    requires |trace| > 0
  {
    trace[|trace| - 1]
  }

  lemma LastOfConcat(a: seq<Status>, b: seq<Status>)
    requires |b| > 0
    ensures Last(a + b) == Last(b)
  {
  }

  /** The reply of the upload route: the new task's id (HTTP 202) or an
      error message (HTTP 400). */
  datatype UploadReply = Accepted(taskId: TaskId) | Rejected(error: string)

  /** The reply of the download route: the file to send, or "File not
      ready" (HTTP 404). */
  datatype DownloadReply = Serve(path: string) | NotReady

  /** One registry entry, a record updated in place: its status, the
      subtitle path once completed, and every status it has had. */
  class TaskRecord {
    var status: Status
    var result: Option<string>
    ghost var history: seq<Status>

    /** `{'status': 'Queued'}`. */
    constructor ()
      ensures status == Queued && result.None? && history == [Queued]
    {
      status := Queued;
      result := None;
      history := [Queued];
    }

    /** `task['status'] = label`. */
    method SetStatus(s: Status)
      modifies this
      ensures status == s && result == old(result) && history == old(history) + [s]
    {
      status := s;
      history := history + [s];
    }
  }

  /** The in-memory registry and the files the pipeline leaves behind. */
  class TaskRegistry {
    /** `tasks`: the record of every task id. */
    var tasks: map<TaskId, TaskRecord>
    /** The subtitle documents written, by path. */
    var files: map<string, seq<string>>
    /** The extracted audio files present on disk. */
    var scratch: set<string>

    /** Distinct ids have distinct records, and a task with a result is
        completed and its subtitle file exists. */
    ghost predicate Valid()
      reads this, tasks.Values
    {
      && (forall i, j :: i in tasks && j in tasks && i != j ==> tasks[i] != tasks[j])
      && (forall id :: id in tasks && tasks[id].result.Some? ==>
            tasks[id].status == Completed && tasks[id].result.value in files)
    }

    constructor ()
      ensures Valid()
      ensures tasks == map[] && files == map[] && scratch == {}
    {
      tasks := map[];
      files := map[];
      scratch := {};
    }

    /** `upload_file`: `upload` is the filename of the request's `file`
        part, if there is one; `secured` is what `secure_filename` makes of
        it and `newId` the fresh uuid. An accepted upload registers a new
        queued record under `newId`, to be processed from
        `UploadPath(secured)`. */
    method UploadFile(upload: Option<string>, secured: string, newId: TaskId)
      returns (reply: UploadReply, videoPath: string)
      requires Valid()
      modifies this
      ensures Valid()
      ensures upload.None? ==> reply == Rejected("No file part")
      ensures upload == Some("") ==> reply == Rejected("No selected file")
      ensures upload.Some? && upload.value != "" && !AllowedFile(upload.value) ==> reply == Rejected("Invalid file type")
      ensures reply.Accepted? <==> upload.Some? && AllowedFile(upload.value)
      ensures reply.Accepted? ==>
        && reply.taskId == newId && videoPath == UploadPath(secured)
        && newId in tasks && fresh(tasks[newId]) && tasks == old(tasks)[newId := tasks[newId]]
        && tasks[newId].status == Queued && tasks[newId].result.None? && tasks[newId].history == [Queued]
      ensures reply.Rejected? ==> tasks == old(tasks)
      ensures files == old(files) && scratch == old(scratch)
    {
      videoPath := "";
      if upload.None? {
        return Rejected("No file part"), videoPath;
      }
      var filename := upload.value;
      if filename == "" {
        return Rejected("No selected file"), videoPath;
      }
      if AllowedFile(filename) {
        videoPath := UploadPath(secured);
        var record := new TaskRecord();
        tasks := tasks[newId := record];
        return Accepted(newId), videoPath;
      }
      return Rejected("Invalid file type"), videoPath;
    }

    /** `transcribe_audio_vosk` for task `id`: checks the model, reads
        the windows from the audio, writing a progress status at every
        tenth window, then collects the recognitions as they complete. */
    method TranscribeAudio(id: TaskId, env: Environment)
      returns (out: Result<seq<Recognition>>)
      requires id in tasks && |tasks[id].history| > 0 && tasks[id].status == Last(tasks[id].history)
      modifies tasks[id]
      ensures TranscriptionOutcome(env, out)
      ensures tasks[id].history == old(tasks[id].history) + TranscribeTrace(env)
      ensures tasks[id].status == Last(tasks[id].history)
      ensures tasks[id].result == old(tasks[id].result)
    {
      var record := tasks[id];
      if !env.modelInstalled {
        return Failure(ModelMissing);
      }
      if env.wav.Failure? {
        return Failure(env.wav.error);
      }
      var frames := env.wav.value;
      var totalChunks := |frames| / ChunkSize;
      WindowsAt(frames);
      var futures: seq<Chunk> := [];
      var position := 0;
      for i := 0 to totalChunks
        invariant position == ChunkSize * i
        invariant futures == Windows(frames)[..i]
        invariant record.history == old(record.history) + ProgressTrace(i, totalChunks)
        invariant record.status == Last(record.history)
        invariant record.result == old(record.result)
      {
        var chunk := frames[position..position + ChunkSize];
        assert Windows(frames)[..i + 1] == Windows(frames)[..i] + [chunk];
        futures := futures + [chunk];
        ProgressTraceStep(i, totalChunks);
        if i % 10 == 0 {
          record.SetStatus(Transcribing(ProgressHundredths(i, totalChunks)));
        }
        position := position + ChunkSize;
      }
      assert futures == Windows(frames);
      ghost var order;
      out, order := CollectAsCompleted(futures, env.recognize);
    }

    /** `process_video` for task `id`, queued for `videoPath`. The ghost
        `collected` is what the transcription stage returned, one of its
        possible outcomes. Only the record of `id` changes. */
    method ProcessVideo(id: TaskId, videoPath: string, env: Environment)
      returns (ghost collected: Result<seq<Recognition>>)
      requires Valid() && id in tasks && tasks[id].result.None?
      modifies this, tasks[id]
      ensures Valid() && tasks == old(tasks)
      ensures env.extraction.None? ==> TranscriptionOutcome(env, collected)
      ensures var o, r := Run(videoPath, env, collected), tasks[id];
        && r.history == old(r.history) + o.trace
        && r.status == Last(o.trace) && r.result == o.result
        && files == (if o.written then old(files)[SubtitlePath(videoPath) := Document(collected.value, env.probe.value)] else old(files))
        && scratch == (if o.audio == NotExtracted then old(scratch)
                       else if o.audio == LeftOnDisk then old(scratch) + {AudioPath(videoPath)}
                       else old(scratch) + {AudioPath(videoPath)} - {AudioPath(videoPath)})
      ensures forall other :: other in tasks && other != id ==>
        tasks[other].status == old(tasks[other].status) && tasks[other].result == old(tasks[other].result)
    {
      collected := ProcessRecord(id, tasks[id], videoPath, env);
    }

    /** `process_video` on the record of task `id`: the statuses,
        files and audio file as `Run` describes them. */
    method ProcessRecord(id: TaskId, record: TaskRecord, videoPath: string, env: Environment)
      returns (ghost collected: Result<seq<Recognition>>)
      requires Valid() && id in tasks && tasks[id] == record && record.result.None?
      modifies this, record
      ensures Valid() && tasks == old(tasks)
      ensures env.extraction.None? ==> TranscriptionOutcome(env, collected)
      ensures var o := Run(videoPath, env, collected);
        && record.history == old(record.history) + o.trace
        && record.status == Last(o.trace) && record.result == o.result
        && files == (if o.written then old(files)[SubtitlePath(videoPath) := Document(collected.value, env.probe.value)] else old(files))
        && scratch == (if o.audio == NotExtracted then old(scratch)
                       else if o.audio == LeftOnDisk then old(scratch) + {AudioPath(videoPath)}
                       else old(scratch) + {AudioPath(videoPath)} - {AudioPath(videoPath)})
    {
      ghost var history, oldFiles, oldScratch := record.history, files, scratch;
      record.SetStatus(Processing);
      if env.extraction.Some? {
        record.SetStatus(Error(env.extraction.value));
        collected := Failure("");
        return;
      }
      collected := ProcessExtracted(id, record, videoPath, env);
      ExtractedEffect(videoPath, env, collected, history, record.history, oldFiles, files, oldScratch, scratch);
    }

    /** Lines 50-66 of app.py, once `ffmpeg` has written the audio file,
        for task `id` whose record is `record`: the statuses, files and
        audio file as `Conclusion` describes the stages after extraction. */
    method ProcessExtracted(id: TaskId, record: TaskRecord, videoPath: string, env: Environment)
      returns (ghost collected: Result<seq<Recognition>>)
      requires Valid() && id in tasks && tasks[id] == record && record.result.None?
      modifies this, record
      ensures Valid() && tasks == old(tasks)
      ensures TranscriptionOutcome(env, collected)
      ensures var o := Conclusion(videoPath, env, collected);
        && record.history == old(record.history) + [AudioExtracted] + TranscribeTrace(env) + o.trace
        && record.status == Last(o.trace) && record.result == o.result
        && files == (if o.written then old(files)[SubtitlePath(videoPath) := Document(collected.value, env.probe.value)] else old(files))
        && scratch == (if o.audio == Removed then old(scratch) + {AudioPath(videoPath)} - {AudioPath(videoPath)}
                       else old(scratch) + {AudioPath(videoPath)})
    {
      ghost var before := record.history;
      scratch := scratch + {AudioPath(videoPath)};
      record.SetStatus(AudioExtracted);
      var transcription := TranscribeAudio(id, env);
      collected := transcription;
      Conclude(record, videoPath, transcription, env);
    }

    /** Lines 52-69 of app.py after the transcription stage: its exception
        becomes the error, otherwise the synthesis stage runs. */
    method Conclude(record: TaskRecord, videoPath: string, transcription: Result<seq<Recognition>>, env: Environment)
      requires Valid() && record.result.None?
      modifies this, record
      ensures Valid() && tasks == old(tasks)
      ensures var o := Conclusion(videoPath, env, transcription);
        && record.history == old(record.history) + o.trace
        && record.status == Last(o.trace) && record.result == o.result
        && files == (if o.written then old(files)[SubtitlePath(videoPath) := Document(transcription.value, env.probe.value)] else old(files))
        && scratch == (if o.audio == Removed then old(scratch) - {AudioPath(videoPath)} else old(scratch))
    {
      if transcription.Failure? {
        record.SetStatus(Error(transcription.error));
        return;
      }
      Synthesize(record, videoPath, transcription.value, env);
    }

    /** Lines 55-66 of app.py: the statuses and files of the stage after a
        successful transcription, as `Synthesis` describes them. */
    method Synthesize(record: TaskRecord, videoPath: string, transcription: seq<Recognition>, env: Environment)
      requires Valid() && record.result.None?
      modifies this, record
      ensures Valid() && tasks == old(tasks)
      ensures var o := Synthesis(videoPath, env);
        && record.history == old(record.history) + o.trace
        && record.status == Last(o.trace) && record.result == o.result
        && files == (if o.written then old(files)[SubtitlePath(videoPath) := Document(transcription, env.probe.value)] else old(files))
        && scratch == (if o.audio == Removed then old(scratch) - {AudioPath(videoPath)} else old(scratch))
    {
      ghost var before := record.history;
      record.SetStatus(TranscriptionComplete);
      var subtitlePath := WithExtension(videoPath, ".ass");
      if env.probe.Failure? {
        record.SetStatus(Error(env.probe.error));
        assert record.history == before + [TranscriptionComplete, Error(env.probe.error)];
        return;
      }
      if env.writeError.Some? {
        record.SetStatus(Error(env.writeError.value));
        assert record.history == before + [TranscriptionComplete, Error(env.writeError.value)];
        return;
      }
      WriteSubtitle(subtitlePath, transcription, env.probe.value);
      Finish(record, videoPath, env.removeError);
    }

    /** `create_ass_subtitle` writing its document to `path`. */
    method WriteSubtitle(path: string, transcription: seq<Recognition>, res: Resolution)
      requires Valid()
      modifies this
      ensures Valid()
      ensures files == old(files)[path := Document(transcription, res)]
      ensures tasks == old(tasks) && scratch == old(scratch)
    {
      var lines := CreateAssSubtitle(transcription, res);
      files := files[path := lines];
    }

    /** Lines 60-66 of app.py: "Subtitle created", then the audio file is
        removed and the record completes with the subtitle path as its
        result, unless the removal fails. */
    method Finish(record: TaskRecord, videoPath: string, removeError: Option<string>)
      requires Valid() && record.result.None? && SubtitlePath(videoPath) in files
      modifies this, record
      ensures Valid() && tasks == old(tasks) && files == old(files)
      ensures record.history == old(record.history) + [SubtitleCreated, if removeError.Some? then Error(removeError.value) else Completed]
      ensures record.status == (if removeError.Some? then Error(removeError.value) else Completed)
      ensures record.result == (if removeError.Some? then None else Some(SubtitlePath(videoPath)))
      ensures scratch == (if removeError.Some? then old(scratch) else old(scratch) - {AudioPath(videoPath)})
    {
      record.SetStatus(SubtitleCreated);
      if removeError.Some? {
        record.SetStatus(Error(removeError.value));
        return;
      }
      scratch := scratch - {AudioPath(videoPath)};
      record.SetStatus(Completed);
      record.result := Some(SubtitlePath(videoPath));
    }

    /** `task_status`: the status text and result of a known task, and
        "Not found" with no result for an unknown id. */
    method TaskStatus(id: TaskId) returns (status: string, result: Option<string>)
      ensures id !in tasks ==> status == NotFound && result.None?
      ensures id in tasks ==> status == Label(tasks[id].status) && result == tasks[id].result
      ensures status == NotFound <==> id !in tasks
    {
      if id in tasks {
        LabelNeverNotFound(tasks[id].status);
        return Label(tasks[id].status), tasks[id].result;
      }
      return NotFound, None;
    }

    /** `download_file`: serves the recorded subtitle exactly when a task
        reads "Completed" and has a result; that file then exists. */
    method DownloadFile(id: TaskId) returns (reply: DownloadReply)
      requires Valid()
      ensures reply.Serve? <==> id in tasks && tasks[id].status == Completed && tasks[id].result.Some?
      ensures reply.Serve? ==> reply.path == tasks[id].result.value && reply.path in files
    {
      if id in tasks && Label(tasks[id].status) == "Completed" && tasks[id].result.Some? {
        LabelCompleted(tasks[id].status);
        return Serve(tasks[id].result.value);
      }
      if id in tasks {
        LabelCompleted(tasks[id].status);
      }
      return NotReady;
    }
  }
}
