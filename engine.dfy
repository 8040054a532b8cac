/** The chunked transcription engine: the extracted audio, as a stream of
    16-bit frames, is cut into fixed windows of 40,000 frames; each window
    goes to the recogniser; results with non-empty text are collected in the
    order the recognitions complete.

    Only `nframes // 40000` windows are read, so a trailing part shorter
    than a window is never recognised, and the collected results are never
    sorted back into window order. */
module Engine {
  import opened Wrappers

  /** Frames per recognition window: `4000 * 10`. */
  const ChunkSize: nat := 40000

  /** One mono 16-bit PCM sample. */
  type Frame = bv16

  type Chunk = seq<Frame>

  /** The recogniser's result for one window: its `text` entry, if any. */
  datatype Recognition = Recognition(text: Option<string>)

  /** The recogniser for one window (a fresh recogniser on the shared
      model); a failure carries the message of what it raised. */
  type Recognizer = Chunk -> Result<Recognition>

  /** `result.get('text')` is truthy: present and non-empty. */
  predicate HasText(r: Recognition)
  {
    r.text.Some? && r.text.value != ""
  }

  /** Number of windows read from a stream of `nframes` frames. */
  function WindowCount(nframes: nat): nat
  {
    nframes / ChunkSize
  }

  /** The windows read from the stream, in stream order. */
  function Windows(frames: seq<Frame>): seq<Chunk>
    decreases |frames|
  {
    if |frames| < ChunkSize then [] else [frames[..ChunkSize]] + Windows(frames[ChunkSize..])
  }

  function Concat(windows: seq<Chunk>): seq<Frame>
  {
    if windows == [] then [] else windows[0] + Concat(windows[1..])
  }

  /** Window `i` holds frames `i * 40000` up to `(i + 1) * 40000`: there are
      exactly `nframes // 40000` windows, each a full window. */
  lemma {:induction false} WindowsAt(frames: seq<Frame>)
    ensures |Windows(frames)| == WindowCount(|frames|)
    ensures forall i :: 0 <= i < |Windows(frames)| ==>
      ChunkSize * (i + 1) <= |frames| && Windows(frames)[i] == frames[ChunkSize * i..ChunkSize * (i + 1)]
    decreases |frames|
  {
    if |frames| >= ChunkSize {
      var rest := frames[ChunkSize..];
      WindowsAt(rest);
      assert Windows(frames) == [frames[..ChunkSize]] + Windows(rest);
      assert WindowCount(|frames|) == 1 + WindowCount(|rest|);
      forall i | 0 < i < |Windows(frames)|
        ensures ChunkSize * (i + 1) <= |frames| && Windows(frames)[i] == frames[ChunkSize * i..ChunkSize * (i + 1)]
      {
        assert Windows(frames)[i] == Windows(rest)[i - 1];
        assert rest[ChunkSize * (i - 1)..ChunkSize * i] == frames[ChunkSize * i..ChunkSize * (i + 1)];
      }
    }
  }

  /** The windows read cover the stream up to the last full window, in
      order, and what is left over is shorter than a window. */
  lemma {:induction false} WindowsCoverPrefix(frames: seq<Frame>)
    ensures ChunkSize * |Windows(frames)| <= |frames| < ChunkSize * (|Windows(frames)| + 1)
    ensures Concat(Windows(frames)) == frames[..ChunkSize * |Windows(frames)|]
    decreases |frames|
  {
    if |frames| >= ChunkSize {
      var rest := frames[ChunkSize..];
      WindowsCoverPrefix(rest);
      var n := |Windows(rest)|;
      assert Windows(frames)[1..] == Windows(rest);
      assert frames[..ChunkSize * (n + 1)] == frames[..ChunkSize] + rest[..ChunkSize * n];
    }
  }

  /** Window indices at which a progress status is written while the
      windows are read: those below `upto` that are multiples of 10. */
  function ProgressIndices(upto: nat): seq<nat>
  {
    if upto == 0 then []
    else ProgressIndices(upto - 1) + (if (upto - 1) % 10 == 0 then [upto - 1] else [])
  }

  /** The progress indices are 0, 10, 20, ..., one per started group of ten
      windows, in increasing order. */
  lemma {:induction false} ProgressIndicesAt(upto: nat)
    ensures |ProgressIndices(upto)| == (upto + 9) / 10
    ensures forall k :: 0 <= k < |ProgressIndices(upto)| ==> ProgressIndices(upto)[k] == 10 * k
  {
    if upto > 0 {
      ProgressIndicesAt(upto - 1);
    }
  }

  predicate InRange(order: seq<nat>, n: nat)
  {
    forall k :: 0 <= k < |order| ==> order[k] < n
  }

  /** 0, 1, ..., n - 1: the windows' sequence indices in stream order. */
  function Range(n: nat): (r: seq<nat>)
    ensures |r| == n && InRange(r, n)
    ensures forall i :: 0 <= i < n ==> r[i] == i
  {
    seq(n, i => i)
  }

  predicate AllRecognized(windows: seq<Chunk>, recognize: Recognizer)
  {
    forall i :: 0 <= i < |windows| ==> recognize(windows[i]).Success?
  }

  /** The results with text, taken from the windows in the order `order`
      visits them: the list the engine collects when the recognitions
      complete in that order. */
  function Transcript(windows: seq<Chunk>, recognize: Recognizer, order: seq<nat>): seq<Recognition>
    requires InRange(order, |windows|)
    decreases |order|
  {
    if order == [] then []
    else
      var r := recognize(windows[order[|order| - 1]]);
      Transcript(windows, recognize, order[..|order| - 1])
        + (if r.Success? && HasText(r.value) then [r.value] else [])
  }

  /** The transcript in window order: the reference the collected list is
      compared with. */
  function WindowOrderTranscript(windows: seq<Chunk>, recognize: Recognizer): seq<Recognition>
  {
    Transcript(windows, recognize, Range(|windows|))
  }

  /** Every collected entry has text, and comes from one of the visited
      windows. */
  lemma {:induction false} TranscriptEntries(windows: seq<Chunk>, recognize: Recognizer, order: seq<nat>)
    requires InRange(order, |windows|)
    ensures forall j :: 0 <= j < |Transcript(windows, recognize, order)| ==>
      var r := Transcript(windows, recognize, order)[j];
      HasText(r) && exists k :: 0 <= k < |order| && recognize(windows[order[k]]) == Success(r)
    decreases |order|
  {
    if order != [] {
      var prefix := order[..|order| - 1];
      TranscriptEntries(windows, recognize, prefix);
      var t := Transcript(windows, recognize, order);
      forall j | 0 <= j < |t|
        ensures HasText(t[j]) && exists k :: 0 <= k < |order| && recognize(windows[order[k]]) == Success(t[j])
      {
        if j < |Transcript(windows, recognize, prefix)| {
          var k :| 0 <= k < |prefix| && recognize(windows[prefix[k]]) == Success(t[j]);
          assert order[k] == prefix[k];
        } else {
          assert recognize(windows[order[|order| - 1]]) == Success(t[j]);
        }
      }
    }
  }

  lemma {:induction false} TranscriptConcat(windows: seq<Chunk>, recognize: Recognizer, a: seq<nat>, b: seq<nat>)
    requires InRange(a, |windows|) && InRange(b, |windows|)
    ensures InRange(a + b, |windows|)
    ensures Transcript(windows, recognize, a + b) == Transcript(windows, recognize, a) + Transcript(windows, recognize, b)
    decreases |b|
  {
    if b == [] {
      assert a + b == a;
    } else {
      var b' := b[..|b| - 1];
      TranscriptConcat(windows, recognize, a, b');
      assert (a + b)[..|a + b| - 1] == a + b';
      assert (a + b)[|a + b| - 1] == b[|b| - 1];
    }
  }

  /** Visiting the same windows in another order collects the same results,
      as a multiset. */
  lemma {:induction false} PermutedTranscript(windows: seq<Chunk>, recognize: Recognizer, o1: seq<nat>, o2: seq<nat>)
    requires InRange(o1, |windows|) && InRange(o2, |windows|)
    requires multiset(o1) == multiset(o2)
    ensures multiset(Transcript(windows, recognize, o1)) == multiset(Transcript(windows, recognize, o2))
    decreases |o1|
  {
    if o1 != [] {
      var x, rest := o1[|o1| - 1], o1[..|o1| - 1];
      assert o1 == rest + [x];
      assert x in multiset(o2);
      var p :| 0 <= p < |o2| && o2[p] == x;
      var others := o2[..p] + o2[p + 1..];
      RemoveMatching(o1, o2, p);
      assert InRange(rest, |windows|) && InRange(others, |windows|);
      PermutedTranscript(windows, recognize, rest, others);
      TranscriptConcat(windows, recognize, rest, [x]);
      TranscriptSplice(windows, recognize, o2, p);
    }
  }

  /** Taking one visit out of an order takes its result out of the
      transcript, as a multiset. */
  lemma TranscriptSplice(windows: seq<Chunk>, recognize: Recognizer, order: seq<nat>, p: nat)
    requires InRange(order, |windows|) && p < |order|
    ensures InRange(order[..p] + order[p + 1..], |windows|) && InRange([order[p]], |windows|)
    ensures multiset(Transcript(windows, recognize, order))
      == multiset(Transcript(windows, recognize, order[..p] + order[p + 1..])) + multiset(Transcript(windows, recognize, [order[p]]))
  {
    var a, x, b := order[..p], [order[p]], order[p + 1..];
    TranscriptWithout(windows, recognize, order, p);
    var ta, tx, tb := Transcript(windows, recognize, a), Transcript(windows, recognize, x), Transcript(windows, recognize, b);
    assert multiset(ta + tx + tb) == multiset(ta) + multiset(tx) + multiset(tb);
    assert multiset(ta + tb) == multiset(ta) + multiset(tb);
  }

  /** The transcript of an order split around visit `p`, with and without
      that visit. */
  lemma TranscriptWithout(windows: seq<Chunk>, recognize: Recognizer, order: seq<nat>, p: nat)
    requires InRange(order, |windows|) && p < |order|
    ensures InRange(order[..p], |windows|) && InRange([order[p]], |windows|) && InRange(order[p + 1..], |windows|)
    ensures InRange(order[..p] + order[p + 1..], |windows|)
    ensures Transcript(windows, recognize, order)
      == Transcript(windows, recognize, order[..p]) + Transcript(windows, recognize, [order[p]])
        + Transcript(windows, recognize, order[p + 1..])
    ensures Transcript(windows, recognize, order[..p] + order[p + 1..])
      == Transcript(windows, recognize, order[..p]) + Transcript(windows, recognize, order[p + 1..])
  {
    var a, x, b := order[..p], [order[p]], order[p + 1..];
    SplitAt(order, p);
    assert InRange(a, |windows|) && InRange(x, |windows|) && InRange(b, |windows|);
    TranscriptConcat(windows, recognize, a, x);
    TranscriptConcat(windows, recognize, a + x, b);
    TranscriptConcat(windows, recognize, a, b);
  }

  /** Removing the last element of one sequence and an equal element of
      another keeps their multisets equal. */
  lemma RemoveMatching(o1: seq<nat>, o2: seq<nat>, p: nat)
    requires multiset(o1) == multiset(o2) && |o1| > 0
    requires p < |o2| && o2[p] == o1[|o1| - 1]
    ensures multiset(o1[..|o1| - 1]) == multiset(o2[..p] + o2[p + 1..])
  {
    var x := o1[|o1| - 1];
    var m1, m2 := multiset(o1[..|o1| - 1]), multiset(o2[..p] + o2[p + 1..]);
    assert o1 == o1[..|o1| - 1] + [x];
    TakeAt(o2, p);
    assert m1 + multiset{x} == m2 + multiset{x};
    assert m1 == (m1 + multiset{x}) - multiset{x};
    assert m2 == (m2 + multiset{x}) - multiset{x};
  }

  lemma SplitAt(s: seq<nat>, p: nat)
    requires p < |s|
    ensures s == s[..p] + [s[p]] + s[p + 1..]
  {
  }

  lemma TakeAt(pending: seq<nat>, p: nat)
    requires p < |pending|
    ensures multiset(pending) == multiset(pending[..p] + pending[p + 1..]) + multiset{pending[p]}
  {
    SplitAt(pending, p);
  }

  lemma EveryIndexVisited(windows: seq<Chunk>, recognize: Recognizer, order: seq<nat>)
    requires InRange(order, |windows|) && multiset(order) == multiset(Range(|windows|))
    requires forall k :: 0 <= k < |order| ==> recognize(windows[order[k]]).Success?
    ensures AllRecognized(windows, recognize)
  {
    forall i | 0 <= i < |windows| ensures recognize(windows[i]).Success? {
      assert Range(|windows|)[i] == i;
      assert i in multiset(order);
    }
  }

  /** The outcomes collecting can have for some completion order: the
      results with text in that order when every recognition succeeded, or
      the failure of one of the windows. */
  ghost predicate Collected(windows: seq<Chunk>, recognize: Recognizer, out: Result<seq<Recognition>>)
  {
    match out
    case Success(t) =>
      && AllRecognized(windows, recognize)
      && exists order: seq<nat> :: InRange(order, |windows|) && multiset(order) == multiset(Range(|windows|))
           && t == Transcript(windows, recognize, order)
    case Failure(e) => exists i :: 0 <= i < |windows| && recognize(windows[i]) == Failure(e)
  }

  /** Whatever the completion order, collecting succeeds exactly when every
      window is recognised, and then yields every result with text once:
      the window-order transcript up to order. */
  lemma CollectedOutcome(windows: seq<Chunk>, recognize: Recognizer, out: Result<seq<Recognition>>)
    requires Collected(windows, recognize, out)
    ensures out.Success? <==> AllRecognized(windows, recognize)
    ensures out.Success? ==>
      && multiset(out.value) == multiset(WindowOrderTranscript(windows, recognize))
      && forall j :: 0 <= j < |out.value| ==> HasText(out.value[j])
  {
    if out.Success? {
      var order: seq<nat> :| InRange(order, |windows|) && multiset(order) == multiset(Range(|windows|))
        && out.value == Transcript(windows, recognize, order);
      PermutedTranscript(windows, recognize, order, Range(|windows|));
      TranscriptEntries(windows, recognize, order);
    } else {
      var i :| 0 <= i < |windows| && recognize(windows[i]) == Failure(out.error);
    }
  }

  /** One completion: window `pending[p]` moves from the pending indices
      to the completion order, and its result, if it has text, to the end
      of the transcript. */
  lemma CompleteOne(windows: seq<Chunk>, recognize: Recognizer, order: seq<nat>, pending: seq<nat>, p: nat)
    requires InRange(order, |windows|) && InRange(pending, |windows|) && p < |pending|
    requires multiset(order) + multiset(pending) == multiset(Range(|windows|))
    ensures var order', pending' := order + [pending[p]], pending[..p] + pending[p + 1..];
      && InRange(order', |windows|) && InRange(pending', |windows|)
      && multiset(order') + multiset(pending') == multiset(Range(|windows|))
      && var r := recognize(windows[pending[p]]);
         Transcript(windows, recognize, order')
           == Transcript(windows, recognize, order) + (if r.Success? && HasText(r.value) then [r.value] else [])
  {
    var order' := order + [pending[p]];
    TakeAt(pending, p);
    assert order'[..|order'| - 1] == order;
  }

  /** A completion order that visits every window once, each successfully,
      collects a transcript that is one of the outcomes of collecting. */
  lemma CollectedAll(windows: seq<Chunk>, recognize: Recognizer, order: seq<nat>)
    requires InRange(order, |windows|) && multiset(order) == multiset(Range(|windows|))
    requires forall k :: 0 <= k < |order| ==> recognize(windows[order[k]]).Success?
    ensures AllRecognized(windows, recognize)
    ensures multiset(Transcript(windows, recognize, order)) == multiset(WindowOrderTranscript(windows, recognize))
    ensures Collected(windows, recognize, Success(Transcript(windows, recognize, order)))
  {
    EveryIndexVisited(windows, recognize, order);
    PermutedTranscript(windows, recognize, order, Range(|windows|));
  }

  /** Lines 94-106 of app.py after the windows are read: every window is
      submitted, and the results are taken as the recognitions complete
      (`as_completed`), in an order the model leaves open. A result whose
      recognition raised is re-raised when it is reached; a result with text
      is appended. The ghost `order` is the completion order. */
  method CollectAsCompleted(windows: seq<Chunk>, recognize: Recognizer)
    returns (out: Result<seq<Recognition>>, ghost order: seq<nat>)
    ensures out.Success? <==> AllRecognized(windows, recognize)
    ensures out.Success? ==>
      && InRange(order, |windows|) && multiset(order) == multiset(Range(|windows|))
      && out.value == Transcript(windows, recognize, order)
      && multiset(out.value) == multiset(WindowOrderTranscript(windows, recognize))
    ensures out.Failure? ==> exists i :: 0 <= i < |windows| && recognize(windows[i]) == Failure(out.error)
    ensures Collected(windows, recognize, out)
  {
    var pending := Range(|windows|);
    var results: seq<Recognition> := [];
    order := [];
    while pending != []
      invariant InRange(order, |windows|) && InRange(pending, |windows|)
      invariant multiset(order) + multiset(pending) == multiset(Range(|windows|))
      invariant forall k :: 0 <= k < |order| ==> recognize(windows[order[k]]).Success?
      invariant results == Transcript(windows, recognize, order)
      decreases |pending|
    {
      var p :| 0 <= p < |pending|;
      var i := pending[p];
      var r := recognize(windows[i]);
      if r.Failure? {
        assert recognize(windows[i]) == Failure(r.error);
        return Failure(r.error), order;
      }
      if HasText(r.value) {
        results := results + [r.value];
      }
      CompleteOne(windows, recognize, order, pending, p);
      order := order + [i];
      pending := pending[..p] + pending[p + 1..];
    }
    CollectedAll(windows, recognize, order);
    return Success(results), order;
  }

  /** The transcript of one visit to a window whose result has text. */
  lemma TranscriptOne(windows: seq<Chunk>, recognize: Recognizer, i: nat)
    requires i < |windows| && recognize(windows[i]).Success? && HasText(recognize(windows[i]).value)
    ensures InRange([i], |windows|)
    ensures Transcript(windows, recognize, [i]) == [recognize(windows[i]).value]
  {
    assert [i][..0] == [];
  }

  /** The transcript of two visits to windows whose results have text. */
  lemma TranscriptPair(windows: seq<Chunk>, recognize: Recognizer, i: nat, j: nat)
    requires i < |windows| && j < |windows|
    requires recognize(windows[i]).Success? && HasText(recognize(windows[i]).value)
    requires recognize(windows[j]).Success? && HasText(recognize(windows[j]).value)
    ensures InRange([i, j], |windows|)
    ensures Transcript(windows, recognize, [i, j]) == [recognize(windows[i]).value, recognize(windows[j]).value]
  {
    TranscriptOne(windows, recognize, i);
    assert [i, j][..1] == [i];
  }

  /** Completion order is not window order: with two windows whose texts
      differ, the order in which the second finishes first yields the
      transcript reversed. */
  lemma CompletionOrderMayDiffer(windows: seq<Chunk>, recognize: Recognizer)
    requires |windows| == 2
    requires recognize(windows[0]).Success? && HasText(recognize(windows[0]).value)
    requires recognize(windows[1]).Success? && HasText(recognize(windows[1]).value)
    requires recognize(windows[0]) != recognize(windows[1])
    ensures multiset([1, 0]) == multiset(Range(2))
    ensures Transcript(windows, recognize, [1, 0]) != WindowOrderTranscript(windows, recognize)
  {
    assert Range(2) == [0, 1];
    TranscriptPair(windows, recognize, 1, 0);
    TranscriptPair(windows, recognize, 0, 1);
  }
}
