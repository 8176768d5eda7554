/** The transcription loop: every segment is handed once, in index order, to
    the speech recognizer, and the recognized texts are accumulated. */
module Transcriber {
  import opened Segmenter

  /** What the recognizer answers for one segment: the recognized text, "could
      not understand the audio", or a failed request with its detail. */
  datatype Outcome = Recognized(text: string) | UnknownValue | RequestError(detail: string)

  /** The text a segment adds to the transcript: its recognized text followed
      by one space, or nothing when recognition failed. */
  function Fragment(o: Outcome): (f: string)
    ensures f == "" <==> !o.Recognized?
    ensures f != "" ==> f[|f| - 1] == ' '
  {
    match o
    case Recognized(text) => text + " "
    case UnknownValue => ""
    case RequestError(_) => ""
  }

  /** The transcript after the given outcomes, accumulated front to back. */
  function Transcript(outcomes: seq<Outcome>): (t: string)
    decreases |outcomes|
  {
    if outcomes == [] then ""
    else Transcript(outcomes[..|outcomes| - 1]) + Fragment(outcomes[|outcomes| - 1])
  }

  /** The recognizer's answer for each of the given segments. */
  function Outcomes(segs: seq<Segment>, recognize: Segment -> Outcome): (os: seq<Outcome>)
    ensures |os| == |segs|
    ensures forall i :: 0 <= i < |segs| ==> os[i] == recognize(segs[i])
  {
    seq(|segs|, i requires 0 <= i < |segs| => recognize(segs[i]))
  }

  /** Asking about one more segment appends its answer. */
  lemma OutcomesSnoc(segs: seq<Segment>, seg: Segment, recognize: Segment -> Outcome)
    ensures Outcomes(segs + [seg], recognize) == Outcomes(segs, recognize) + [recognize(seg)]
  {
  }

  /** The recognized texts, in order, with the failures dropped. */
  function RecognizedTexts(outcomes: seq<Outcome>): seq<string>
    decreases |outcomes|
  {
    if outcomes == [] then []
    else if outcomes[0].Recognized? then [outcomes[0].text] + RecognizedTexts(outcomes[1..])
    else RecognizedTexts(outcomes[1..])
  }

  /** Each text followed by one space, all concatenated. */
  function JoinWithTrailingSpaces(texts: seq<string>): string
    decreases |texts|
  {
    if texts == [] then "" else texts[0] + " " + JoinWithTrailingSpaces(texts[1..])
  }

  lemma ConcatAssociative(x: string, y: string, z: string)
    ensures (x + y) + z == x + (y + z)
  {
  }

  /** Appending one outcome appends its fragment. */
  lemma TranscriptSnoc(a: seq<Outcome>, o: Outcome)
    ensures Transcript(a + [o]) == Transcript(a) + Fragment(o)
  {
    assert (a + [o])[..|a|] == a;
  }

  /** The transcript of consecutive runs is the transcript of the first run
      followed by that of the second: fragments keep segment order. */
  lemma {:induction false} TranscriptAppend(a: seq<Outcome>, b: seq<Outcome>)
    ensures Transcript(a + b) == Transcript(a) + Transcript(b)
    decreases |b|
  {
    if b == [] {
      assert a + b == a;
    } else {
      var b', o := b[..|b| - 1], b[|b| - 1];
      var ab' := a + b';
      assert b == b' + [o];
      assert a + b == ab' + [o];
      TranscriptAppend(a, b');
      TranscriptSnoc(ab', o);
      TranscriptSnoc(b', o);
      ConcatAssociative(Transcript(a), Transcript(b'), Fragment(o));
    }
  }

  /** The transcript is the space-terminated concatenation of exactly the
      recognized texts, in segment order. */
  lemma {:induction false} TranscriptIsRecognizedTexts(outcomes: seq<Outcome>)
    ensures Transcript(outcomes) == JoinWithTrailingSpaces(RecognizedTexts(outcomes))
    decreases |outcomes|
  {
    if outcomes != [] {
      var head, tail := outcomes[0], outcomes[1..];
      assert outcomes == [head] + tail;
      TranscriptIsRecognizedTexts(tail);
      calc {
        Transcript(outcomes);
        { TranscriptAppend([head], tail); }
        Transcript([head]) + Transcript(tail);
        { TranscriptSnoc([], head); assert [] + [head] == [head]; }
        Fragment(head) + JoinWithTrailingSpaces(RecognizedTexts(tail));
      }
      if head.Recognized? {
        var texts := [head.text] + RecognizedTexts(tail);
        assert texts[0] == head.text && texts[1..] == RecognizedTexts(tail);
      }
    }
  }

  /** A segment whose recognition failed contributes nothing, wherever it
      stands, and the segments after it are still transcribed. */
  lemma FailureContributesNothing(before: seq<Outcome>, failed: Outcome, after: seq<Outcome>)
    requires !failed.Recognized?
    ensures Transcript(before + [failed] + after) == Transcript(before + after)
  {
    calc {
      Transcript(before + [failed] + after);
      { TranscriptAppend(before + [failed], after); }
      Transcript(before + [failed]) + Transcript(after);
      { TranscriptSnoc(before, failed); assert Fragment(failed) == ""; }
      Transcript(before) + Transcript(after);
      { TranscriptAppend(before, after); }
      Transcript(before + after);
    }
  }

  /** A recognized segment's text, followed by one space, stands in the
      transcript right after the text of the segments before it. */
  lemma RecognizedTextInPlace(outcomes: seq<Outcome>, i: nat)
    requires i < |outcomes| && outcomes[i].Recognized?
    ensures Transcript(outcomes) ==
              Transcript(outcomes[..i]) + (outcomes[i].text + " ") + Transcript(outcomes[i + 1..])
  {
    var before, o, after := outcomes[..i], outcomes[i], outcomes[i + 1..];
    assert outcomes[..i + 1] == before + [o];
    assert outcomes == outcomes[..i + 1] + after;
    TranscriptAppend(before + [o], after);
    TranscriptSnoc(before, o);
  }

  /** A non-empty transcript ends with a space: every recognized text is
      followed by one, and nothing else is added. */
  lemma {:induction false} TranscriptEndsWithSpace(outcomes: seq<Outcome>)
    ensures var t := Transcript(outcomes); t != "" ==> t[|t| - 1] == ' '
    decreases |outcomes|
  {
    if outcomes != [] {
      TranscriptEndsWithSpace(outcomes[..|outcomes| - 1]);
    }
  }

  /** When every segment fails the transcript is empty. */
  lemma {:induction false} AllFailedIsEmpty(outcomes: seq<Outcome>)
    requires forall i :: 0 <= i < |outcomes| ==> !outcomes[i].Recognized?
    ensures Transcript(outcomes) == ""
    decreases |outcomes|
  {
    if outcomes != [] {
      AllFailedIsEmpty(outcomes[..|outcomes| - 1]);
    }
  }

  /** `transcribe_audio` without its I/O: for each segment of the track, in
      index order, compute its bounds, ask the recognizer once and append the
      recognized text and a space, or nothing on either recognition error.
      Returns the transcript and the segments in the order the loop went
      through them. Errors other than the two recognition errors are not modelled. */
  method TranscribeAudio(lenMs: nat, segmentLength: nat, recognize: Segment -> Outcome)
    returns (fullText: string, attempted: seq<Segment>)
    requires segmentLength > 0
    ensures attempted == Segments(lenMs, segmentLength)
    ensures fullText == Transcript(Outcomes(attempted, recognize))
  {
    var segments := SegmentCount(lenMs, segmentLength);
    fullText := "";
    attempted := [];
    for i := 0 to segments
      invariant attempted == Segments(lenMs, segmentLength)[..i]
      invariant fullText == Transcript(Outcomes(attempted, recognize))
    {
      var startTime := SegmentStart(i, segmentLength);
      var endTime := SegmentEnd(i, lenMs, segmentLength);
      var segment := Segment(i + 1, startTime, endTime);
      var outcome := recognize(segment);
      SegmentsPrefix(lenMs, segmentLength, i);
      OutcomesSnoc(attempted, segment, recognize);
      TranscriptSnoc(Outcomes(attempted, recognize), outcome);
      match outcome {
        case Recognized(text) =>
          fullText := fullText + (text + " ");
        case UnknownValue =>
        case RequestError(_) =>
      }
      attempted := attempted + [segment];
    }
  }
}
