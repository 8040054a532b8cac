/** The subtitle synthesiser: an Advanced SubStation Alpha (v4.00+) script
    built from the transcript and the video's pixel size. The document is
    the sequence of strings written, each followed by a newline in the file.
    A running cursor, in whole seconds, gives every event exactly two
    seconds. */
module Subtitle {
  import opened Wrappers
  import opened Text
  import opened Engine

  /** Width and height of the video, as the probe reports them. */
  datatype Resolution = Resolution(width: int, height: int)

  /** Length of every dialogue event, in seconds. */
  const EventSeconds: nat := 2

  /** The label that opens both format lines. */
  const FormatLabel: string := "Format: "

  const StyleFormat: string :=
    FormatLabel + "Name, Fontname, Fontsize, PrimaryColour, SecondaryColour, OutlineColour, BackColour, Bold, Italic, Underline, StrikeOut, ScaleX, ScaleY, Spacing, Angle, BorderStyle, Outline, Shadow, Alignment, MarginL, MarginR, MarginV, Encoding"

  const EventFormat: string :=
    FormatLabel + "Layer, Start, End, Style, Name, MarginL, MarginR, MarginV, Effect, Text"

  /** The Default style's fields after its font size: colours, flags,
      scale, spacing, border, alignment, margins and encoding. */
  const StyleColours: string :=
    "&H00FFFFFF,&H000000FF,&H00000000,&H00000000,0,0,0,0,100,100,0,0,1,2,2,2,10,10,10,1"

  /** `height // 20`. Python's `//` rounds down; so does Dafny's `/` when
      the divisor is positive, negative heights included. */
  function FontSize(height: int): (size: int)
    ensures 20 * size <= height < 20 * size + 20
  {
    height / 20
  }

  /** Line `k` of the twelve before the first event: script info with the
      play resolution, the one Default style, and the events' format line. */
  function HeaderLine(res: Resolution, k: nat): string
    requires k < 12
  {
    match k
    case 0 => "[Script Info]"
    case 1 => "ScriptType: v4.00+"
    case 2 => "PlayResX: " + IntText(res.width)
    case 3 => "PlayResY: " + IntText(res.height)
    case 4 => "ScaledBorderAndShadow: yes"
    case 5 => ""
    case 6 => "[V4+ Styles]"
    case 7 => StyleFormat
    case 8 =>
      "Style: Default,Arial," + IntText(FontSize(res.height)) + "," + StyleColours
    case 9 => ""
    case 10 => "[Events]"
    case _ => EventFormat
  }

  function HeaderLines(res: Resolution): seq<string>
  {
    seq(12, k requires 0 <= k < 12 => HeaderLine(res, k))
  }

  /** `str(datetime.timedelta(seconds=s))` for a whole number of seconds:
      `H:MM:SS`, preceded by `N day, ` or `N days, ` from one day on. */
  function Clock(seconds: nat): string
  {
    var days, rest := seconds / 86400, seconds % 86400;
    var minutes, secs := rest / 60, rest % 60;
    var hms := NatText(minutes / 60) + ":" + Pad2(minutes % 60) + ":" + Pad2(secs);
    if days == 0 then hms
    else NatText(days) + (if days == 1 then " day, " else " days, ") + hms
  }

  /** The clock text holds no dot, so `split('.')[0]` keeps all of it. */
  lemma ClockHasNoDot(seconds: nat)
    ensures '.' !in Clock(seconds)
  {
    var days, rest := seconds / 86400, seconds % 86400;
    var minutes, secs := rest / 60, rest % 60;
    var h, m, s := NatText(minutes / 60), Pad2(minutes % 60), Pad2(secs);
    NatTextDigits(minutes / 60);
    Pad2RoundTrip(minutes % 60);
    Pad2RoundTrip(secs);
    var hms := h + ":" + m + ":" + s;
    assert forall i :: 0 <= i < |hms| ==> hms[i] == ':' || IsDigit(hms[i]);
    if days > 0 {
      NatTextDigits(days);
      var dayText := NatText(days) + (if days == 1 then " day, " else " days, ");
      assert forall i :: 0 <= i < |NatText(days)| ==> IsDigit(dayText[i]);
      assert Clock(seconds) == dayText + hms;
    }
  }

  /** Reads `H:MM:SS` back into seconds. */
  function ParseClock(text: string): Option<nat>
  {
    if |text| < 7 || text[|text| - 6] != ':' || text[|text| - 3] != ':' then None
    else
      match (ParseNat(text[..|text| - 6]), ParseNat(text[|text| - 5..|text| - 3]), ParseNat(text[|text| - 2..]))
      case (Some(h), Some(m), Some(s)) => if m < 60 && s < 60 then Some(3600 * h + 60 * m + s) else None
      case _ => None
  }

  /** `H:MM:SS` built from its three fields reads back as their seconds. */
  lemma ParseClockFields(h: nat, m: nat, s: nat)
    requires m < 60 && s < 60
    ensures var text := NatText(h) + ":" + Pad2(m) + ":" + Pad2(s);
      |text| >= 7 && text[..|text| - 6] == NatText(h)
    ensures ParseClock(NatText(h) + ":" + Pad2(m) + ":" + Pad2(s)) == Some(3600 * h + 60 * m + s)
  {
    ClockTextSlices(NatText(h), Pad2(m), Pad2(s));
    NatTextRoundTrip(h);
    Pad2RoundTrip(m);
    Pad2RoundTrip(s);
  }

  /** The three fields of `H:MM:SS` sit where the parser looks for them. */
  lemma ClockTextSlices(hours: string, minutes: string, secs: string)
    requires |hours| > 0 && |minutes| == 2 && |secs| == 2
    ensures var text := hours + ":" + minutes + ":" + secs;
      && |text| >= 7 && text[|text| - 6] == ':' && text[|text| - 3] == ':'
      && text[..|text| - 6] == hours && text[|text| - 5..|text| - 3] == minutes && text[|text| - 2..] == secs
  {
    var text := hours + ":" + minutes + ":" + secs;
    assert text[..|text| - 6] == hours;
    assert text[|text| - 5..|text| - 3] == minutes;
    assert text[|text| - 2..] == secs;
  }

  /** Below one day the clock text is `H:MM:SS`, the hours unpadded as
      `str` writes them, and says exactly how many seconds it stands for. */
  lemma ClockRoundTrip(seconds: nat)
    requires seconds < 86400
    ensures var t := Clock(seconds); |t| >= 7 && t[..|t| - 6] == NatText(seconds / 3600)
    ensures ParseClock(Clock(seconds)) == Some(seconds)
  {
    var h, m, s := seconds / 3600, (seconds / 60) % 60, seconds % 60;
    ClockFields(seconds);
    ParseClockFields(h, m, s);
  }

  /** Below one day the clock text is made of the whole hours, the minutes
      past the hour and the seconds past the minute, which add back up to
      the time. */
  lemma ClockFields(seconds: nat)
    requires seconds < 86400
    ensures var h, m, s := seconds / 3600, (seconds / 60) % 60, seconds % 60;
      && m < 60 && s < 60 && 3600 * h + 60 * m + s == seconds
      && Clock(seconds) == NatText(h) + ":" + Pad2(m) + ":" + Pad2(s)
  {
    var minutes := seconds / 60;
    HoursOfSeconds(seconds);
    assert seconds == 60 * minutes + seconds % 60;
    assert minutes == 60 * (minutes / 60) + minutes % 60;
  }

  /** Whole hours counted through whole minutes. */
  lemma HoursOfSeconds(seconds: nat)
    ensures (seconds / 60) / 60 == seconds / 3600
  {
    var minutes := seconds / 60;
    assert seconds == 3600 * (minutes / 60) + 60 * (minutes % 60) + seconds % 60;
  }

  /** `s.split('.')[0]`: the text before the first dot, or all of it. */
  function BeforeDot(s: string): (r: string)
    ensures |r| <= |s| && r == s[..|r|] && '.' !in r
    ensures '.' !in s ==> r == s
    ensures |r| < |s| ==> s[|r|] == '.'
  {
    if s == [] || s[0] == '.' then []
    else [s[0]] + BeforeDot(s[1..])
  }

  function DialogueLine(start: string, end: string, text: string): string
  {
    "Dialogue: 0," + start + "," + end + ",Default,,0,0,0,," + text
  }

  /** One dialogue event: its start and end in seconds and its text. */
  datatype Event = Event(start: nat, end: nat, text: string)

  /** The events for `transcription` when the cursor stands at `cursor`:
      each entry that has a text gets the next two seconds. */
  function Timeline(transcription: seq<Recognition>, cursor: nat): seq<Event>
    decreases |transcription|
  {
    if transcription == [] then []
    else if transcription[0].text.Some? then
      [Event(cursor, cursor + EventSeconds, transcription[0].text.value)]
        + Timeline(transcription[1..], cursor + EventSeconds)
    else
      Timeline(transcription[1..], cursor)
  }

  /** The `Dialogue:` line of an event. */
  function Render(e: Event): string
  {
    DialogueLine(Clock(e.start), Clock(e.end), e.text)
  }

  /** `f` applied to every element of `s`, in order. */
  function Map<A, B>(f: A -> B, s: seq<A>): seq<B>
  {
    seq(|s|, i requires 0 <= i < |s| => f(s[i]))
  }

  lemma MapCons<A, B>(f: A -> B, x: A, rest: seq<A>)
    ensures Map(f, [x] + rest) == [f(x)] + Map(f, rest)
  {
    var s := [x] + rest;
    assert s[0] == x;
    assert forall i :: 0 < i < |s| ==> s[i] == rest[i - 1];
  }

  /** The `Dialogue:` lines of a sequence of events, in order. */
  function RenderAll(events: seq<Event>): seq<string>
  {
    Map(Render, events)
  }

  /** Every rendered event is a `Dialogue:` line. */
  lemma RenderIsDialogue(e: Event)
    ensures StartsWith(Render(e), "Dialogue:")
  {
    assert Render(e)[..9] == "Dialogue:";
  }

  /** The whole script for a transcript and a resolution. */
  function Document(transcription: seq<Recognition>, res: Resolution): seq<string>
  {
    HeaderLines(res) + RenderAll(Timeline(transcription, 0))
  }

  /** The texts of the entries that have one (`'text' in result`), in
      transcript order. */
  function Captions(transcription: seq<Recognition>): (texts: seq<string>)
    ensures |texts| <= |transcription|
  {
    if transcription == [] then []
    else if transcription[0].text.Some? then [transcription[0].text.value] + Captions(transcription[1..])
    else Captions(transcription[1..])
  }

  /** Event `i` runs from `cursor + 2 * i` to `cursor + 2 * (i + 1)` seconds
      and shows the `i`-th caption: events abut and never overlap. */
  lemma {:induction false} TimelineAt(transcription: seq<Recognition>, cursor: nat)
    ensures |Timeline(transcription, cursor)| == |Captions(transcription)|
    ensures forall i :: 0 <= i < |Captions(transcription)| ==>
      Timeline(transcription, cursor)[i] == Event(cursor + 2 * i, cursor + 2 * (i + 1), Captions(transcription)[i])
    decreases |transcription|
  {
    if transcription != [] {
      var rest := transcription[1..];
      if transcription[0].text.Some? {
        TimelineAt(rest, cursor + EventSeconds);
        forall i | 0 < i < |Captions(transcription)|
          ensures Timeline(transcription, cursor)[i] == Event(cursor + 2 * i, cursor + 2 * (i + 1), Captions(transcription)[i])
        {
          assert Timeline(transcription, cursor)[i] == Timeline(rest, cursor + EventSeconds)[i - 1];
          assert Captions(transcription)[i] == Captions(rest)[i - 1];
        }
      } else {
        TimelineAt(rest, cursor);
      }
    }
  }

  /** When every entry has a text, as in the engine's output, there is one
      caption per entry, in transcript order. */
  lemma {:induction false} CaptionsOfTexts(transcription: seq<Recognition>)
    requires forall j :: 0 <= j < |transcription| ==> HasText(transcription[j])
    ensures |Captions(transcription)| == |transcription|
    ensures forall j :: 0 <= j < |transcription| ==>
      transcription[j].text.Some? && Captions(transcription)[j] == transcription[j].text.value
    decreases |transcription|
  {
    if transcription != [] {
      CaptionsOfTexts(transcription[1..]);
      assert transcription[0].text.Some?;
    }
  }

  /** Lines 111-133 of app.py, after the probe: the header, then one
      `Dialogue:` line per entry with a text, the cursor advancing by two
      seconds per line. */
  method CreateAssSubtitle(transcription: seq<Recognition>, res: Resolution) returns (lines: seq<string>)
    ensures lines == Document(transcription, res)
  {
    lines := HeaderLines(res);
    var startTime: nat := 0;
    for k := 0 to |transcription|
      invariant lines + RenderAll(Timeline(transcription[k..], startTime)) == Document(transcription, res)
    {
      var result := transcription[k];
      RenderStep(transcription, k, startTime);
      if result.text.Some? {
        var endTime := startTime + EventSeconds;
        var start := BeforeDot(Clock(startTime));
        var end := BeforeDot(Clock(endTime));
        var line := DialogueLine(start, end, result.text.value);
        TrimmedClocks(Event(startTime, endTime, result.text.value));
        lines := lines + [line];
        startTime := endTime;
      }
    }
  }

  /** Rendering the timeline from entry `k` on: the entry's own line, if it
      has a text, then the rest from the advanced cursor. */
  lemma RenderStep(transcription: seq<Recognition>, k: nat, cursor: nat)
    requires k < |transcription|
    ensures transcription[k].text.Some? ==>
      RenderAll(Timeline(transcription[k..], cursor))
        == [Render(Event(cursor, cursor + EventSeconds, transcription[k].text.value))]
          + RenderAll(Timeline(transcription[k + 1..], cursor + EventSeconds))
    ensures transcription[k].text.None? ==>
      RenderAll(Timeline(transcription[k..], cursor)) == RenderAll(Timeline(transcription[k + 1..], cursor))
  {
    assert transcription[k..][1..] == transcription[k + 1..];
    if transcription[k].text.Some? {
      var event := Event(cursor, cursor + EventSeconds, transcription[k].text.value);
      MapCons(Render, event, Timeline(transcription[k + 1..], cursor + EventSeconds));
    }
  }

  /** Cutting each clock text at its first dot changes nothing. */
  lemma TrimmedClocks(e: Event)
    ensures DialogueLine(BeforeDot(Clock(e.start)), BeforeDot(Clock(e.end)), e.text) == Render(e)
  {
    ClockHasNoDot(e.start);
    ClockHasNoDot(e.end);
  }

  /** Number of lines that are dialogue events. */
  function DialogueCount(lines: seq<string>): nat
  {
    if lines == [] then 0
    else (if StartsWith(lines[0], "Dialogue:") then 1 else 0) + DialogueCount(lines[1..])
  }

  lemma {:induction false} DialogueCountConcat(a: seq<string>, b: seq<string>)
    ensures DialogueCount(a + b) == DialogueCount(a) + DialogueCount(b)
    decreases |a|
  {
    if a == [] {
      assert a + b == b;
    } else {
      assert (a + b)[0] == a[0];
      assert (a + b)[1..] == a[1..] + b;
      DialogueCountConcat(a[1..], b);
    }
  }

  lemma {:induction false} AllDialogue(lines: seq<string>)
    requires forall j :: 0 <= j < |lines| ==> StartsWith(lines[j], "Dialogue:")
    ensures DialogueCount(lines) == |lines|
    decreases |lines|
  {
    if lines != [] {
      AllDialogue(lines[1..]);
    }
  }

  lemma {:induction false} NoDialogue(lines: seq<string>)
    requires forall j :: 0 <= j < |lines| ==> |lines[j]| == 0 || lines[j][0] != 'D'
    ensures DialogueCount(lines) == 0
    ensures forall j :: 0 <= j < |lines| ==> !StartsWith(lines[j], "Dialogue:")
    decreases |lines|
  {
    if lines != [] {
      NoDialogue(lines[1..]);
      assert !StartsWith(lines[0], "Dialogue:") by {
        if |lines[0]| >= 9 { assert lines[0][..9][0] == lines[0][0]; }
      }
    }
  }

  /** No header line starts with the `D` of `Dialogue:`. */
  lemma HeaderLineNotDialogue(res: Resolution, k: nat)
    requires k < 12
    ensures |HeaderLine(res, k)| == 0 || HeaderLine(res, k)[0] != 'D'
  {
    var line := HeaderLine(res, k);
    match k
    case 2 => assert line == "PlayResX: " + IntText(res.width);
    case 3 => assert line == "PlayResY: " + IntText(res.height);
    case 7 => assert line[0] == StyleFormat[0] == 'F';
    case 8 => assert line[0] == 'S';
    case 11 => assert line[0] == EventFormat[0] == 'F';
    case _ =>
  }

  lemma HeaderHasNoDialogue(res: Resolution)
    ensures DialogueCount(HeaderLines(res)) == 0
    ensures forall j :: 0 <= j < 12 ==> !StartsWith(HeaderLines(res)[j], "Dialogue:")
  {
    var h := HeaderLines(res);
    forall k | 0 <= k < |h|
      ensures |h[k]| == 0 || h[k][0] != 'D'
    {
      HeaderLineNotDialogue(res, k);
    }
    NoDialogue(h);
  }

  /** Line `k` of the first twelve is header line `k`. */
  lemma DocumentHeader(transcription: seq<Recognition>, res: Resolution, k: nat)
    requires k < 12
    ensures |Document(transcription, res)| >= 12
    ensures Document(transcription, res)[k] == HeaderLine(res, k)
  {
    var h := HeaderLines(res);
    assert |h| == 12 && h[k] == HeaderLine(res, k);
    assert Document(transcription, res)[k] == h[k];
  }

  /** Line `12 + i` is the rendering of event `i` of the timeline. */
  lemma DocumentEvent(transcription: seq<Recognition>, res: Resolution, i: nat)
    requires i < |Timeline(transcription, 0)|
    ensures |Document(transcription, res)| == 12 + |Timeline(transcription, 0)|
    ensures Document(transcription, res)[12 + i] == Render(Timeline(transcription, 0)[i])
  {
    var h, r := HeaderLines(res), RenderAll(Timeline(transcription, 0));
    assert |h| == 12 && r[i] == Render(Timeline(transcription, 0)[i]);
    assert Document(transcription, res)[12 + i] == r[i];
  }

  /** Line `12 + i` of the script is the event of caption `i`. */
  lemma DocumentAt(transcription: seq<Recognition>, res: Resolution, i: nat)
    requires i < |Captions(transcription)|
    ensures |Document(transcription, res)| == 12 + |Captions(transcription)|
    ensures Document(transcription, res)[12 + i] == Render(Event(2 * i, 2 * (i + 1), Captions(transcription)[i]))
  {
    TimelineAt(transcription, 0);
    DocumentEvent(transcription, res, i);
  }

  /** The events follow the header: caption `i` is line `12 + i`, timed
      from `2 * i` to `2 * (i + 1)` seconds, so consecutive events abut and
      never overlap. */
  lemma DocumentEvents(transcription: seq<Recognition>, res: Resolution)
    ensures var doc := Document(transcription, res);
      && |doc| == 12 + |Captions(transcription)|
      && forall i :: 0 <= i < |Captions(transcription)| ==>
           doc[12 + i] == Render(Event(2 * i, 2 * (i + 1), Captions(transcription)[i]))
  {
    TimelineAt(transcription, 0);
    forall i | 0 <= i < |Captions(transcription)|
      ensures Document(transcription, res)[12 + i] == Render(Event(2 * i, 2 * (i + 1), Captions(transcription)[i]))
    {
      DocumentAt(transcription, res, i);
    }
  }

  /** There is exactly one `Dialogue:` line per caption, and none of them
      comes before the `[Events]` section and its format line. */
  lemma DialogueLines(transcription: seq<Recognition>, res: Resolution)
    ensures var doc := Document(transcription, res);
      && DialogueCount(doc) == |Captions(transcription)|
      && forall j :: 0 <= j < |doc| && StartsWith(doc[j], "Dialogue:") ==> j >= 12
  {
    var timeline := Timeline(transcription, 0);
    var events := RenderAll(timeline);
    TimelineAt(transcription, 0);
    HeaderHasNoDialogue(res);
    DialogueCountConcat(HeaderLines(res), events);
    forall j | 0 <= j < |events| ensures StartsWith(events[j], "Dialogue:") {
      RenderIsDialogue(timeline[j]);
    }
    AllDialogue(events);
  }

  /** The header carries the probed resolution, which reads back exactly,
      and the Default style with font size `height // 20`; it ends with the
      `[Events]` section and its format line. */
  lemma HeaderLayout(transcription: seq<Recognition>, res: Resolution)
    ensures var doc := Document(transcription, res);
      && |doc| >= 12
      && doc[0] == "[Script Info]" && doc[6] == "[V4+ Styles]" && doc[10] == "[Events]" && doc[11] == EventFormat
      && StartsWith(doc[2], "PlayResX: ") && ParseInt(doc[2][10..]) == Some(res.width)
      && StartsWith(doc[3], "PlayResY: ") && ParseInt(doc[3][10..]) == Some(res.height)
      && StartsWith(doc[8], "Style: Default,Arial,")
      && var n := |IntText(FontSize(res.height))|;
         21 + n < |doc[8]| && ParseInt(doc[8][21..21 + n]) == Some(res.height / 20)
         && doc[8][21 + n] == ',' && doc[8][22 + n..] == StyleColours
  {
    DocumentHeader(transcription, res, 0);
    DocumentHeader(transcription, res, 6);
    DocumentHeader(transcription, res, 10);
    DocumentHeader(transcription, res, 11);
    DocumentHeader(transcription, res, 2);
    DocumentHeader(transcription, res, 3);
    DocumentHeader(transcription, res, 8);
    ResolutionLines(res);
    StyleLine(res);
  }

  /** Header lines 2 and 3 give the play resolution, which reads back
      exactly. */
  lemma ResolutionLines(res: Resolution)
    ensures var x, y := HeaderLine(res, 2), HeaderLine(res, 3);
      && StartsWith(x, "PlayResX: ") && ParseInt(x[10..]) == Some(res.width)
      && StartsWith(y, "PlayResY: ") && ParseInt(y[10..]) == Some(res.height)
  {
    var x, y := HeaderLine(res, 2), HeaderLine(res, 3);
    assert x[..10] == "PlayResX: " && x[10..] == IntText(res.width);
    assert y[..10] == "PlayResY: " && y[10..] == IntText(res.height);
    IntTextRoundTrip(res.width);
    IntTextRoundTrip(res.height);
  }

  /** Header line 8 is the Default style; its font size field, closed by a
      comma, reads back as `height // 20`. */
  lemma StyleLine(res: Resolution)
    ensures var style, n := HeaderLine(res, 8), |IntText(FontSize(res.height))|;
      && StartsWith(style, "Style: Default,Arial,")
      && 21 + n < |style| && ParseInt(style[21..21 + n]) == Some(res.height / 20)
      && style[21 + n] == ',' && style[22 + n..] == StyleColours
  {
    var style, size := HeaderLine(res, 8), IntText(FontSize(res.height));
    assert style[..21] == "Style: Default,Arial," && style[21..21 + |size|] == size;
    assert style[21 + |size|] == ',' && style[22 + |size|..] == StyleColours;
    IntTextRoundTrip(FontSize(res.height));
  }

  /** Under one day, the start and end fields of event `i` read back as
      `2 * i` and `2 * (i + 1)` seconds. */
  lemma EventTimes(transcription: seq<Recognition>, res: Resolution, i: nat)
    requires i < |Captions(transcription)| && 2 * (i + 1) < 86400
    ensures |Document(transcription, res)| > 12 + i
    ensures exists start, end ::
      && Document(transcription, res)[12 + i] == DialogueLine(start, end, Captions(transcription)[i])
      && ParseClock(start) == Some(2 * i) && ParseClock(end) == Some(2 * (i + 1))
  {
    DocumentAt(transcription, res, i);
    ClockRoundTrip(2 * i);
    ClockRoundTrip(2 * (i + 1));
    var start, end := Clock(2 * i), Clock(2 * (i + 1));
    assert Document(transcription, res)[12 + i] == DialogueLine(start, end, Captions(transcription)[i]);
  }

  /** From one day on, the day count is written before the clock of the
      time left over: `N day, ` for one day and `N days, ` for more. */
  lemma DayPrefix(seconds: nat)
    requires seconds >= 86400
    ensures Clock(seconds)
      == NatText(seconds / 86400) + (if seconds / 86400 == 1 then " day, " else " days, ") + Clock(seconds % 86400)
  {
    var rest := seconds % 86400;
    assert rest / 86400 == 0 && rest % 86400 == rest;
  }

  /** One day exactly: `1 day, 0:00:00`. */
  lemma OneDay()
    ensures Clock(86400) == "1 day, 0:00:00"
  {
    assert NatText(1) == "1" && NatText(0) == "0" && Pad2(0) == "00";
    assert Clock(86400) == NatText(1) + " day, " + (NatText(0) + ":" + Pad2(0) + ":" + Pad2(0));
  }

  /** Two days, one hour, one minute and one second: `2 days, 1:01:01`. */
  lemma TwoDays()
    ensures Clock(2 * 86400 + 3661) == "2 days, 1:01:01"
  {
    var seconds := 2 * 86400 + 3661;
    assert seconds / 86400 == 2 && seconds % 86400 == 3661;
    assert 3661 / 60 == 61 && 3661 % 60 == 1 && 61 / 60 == 1 && 61 % 60 == 1;
    assert NatText(2) == "2" && NatText(1) == "1" && Pad2(1) == "01";
    assert Clock(seconds) == NatText(2) + " days, " + (NatText(1) + ":" + Pad2(1) + ":" + Pad2(1));
  }
}
