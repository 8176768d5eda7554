/** Segmentation of an audio track, known only by its length in milliseconds,
    into fixed-length pieces for the speech recognizer. */
module Segmenter {
  import opened Decimal

  const MsPerSecond: nat := 1000

  /** The segment length, in seconds, that the transcription uses by default. */
  const DefaultSegmentLength: nat := 60

  /** One slice `[start, end)` of the track, in milliseconds, with its 1-based
      number. */
  datatype Segment = Segment(number: nat, start: nat, end: nat)
  {
    /** The base name of the temporary WAV file the slice is exported to. */
    function TempFileName(): (name: string)
      ensures |name| > 17 && name[..13] == "temp_segment_" && name[|name| - 4..] == ".wav"
    {
      "temp_segment_" + NatToString(number) + ".wav"
    }
  }

  function Min(a: nat, b: nat): nat
  {
    if a <= b then a else b
  }

  /** The nominal segment length in milliseconds. */
  function SpanMs(segmentLength: nat): nat
  {
    segmentLength * MsPerSecond
  }

  /** The number of segments: whole seconds of the track, divided by the
      segment length, plus one. There is always at least one segment. */
  function SegmentCount(lenMs: nat, segmentLength: nat): (n: nat)
    requires segmentLength > 0
    ensures n >= 1
  {
    var duration := lenMs / MsPerSecond;
    duration / segmentLength + 1
  }

  /** Where segment `i` starts: `i` nominal spans into the track. */
  function SegmentStart(i: nat, segmentLength: nat): (start: nat)
    ensures start == i * SpanMs(segmentLength)
  {
    assert i * segmentLength * MsPerSecond == i * (segmentLength * MsPerSecond);
    i * segmentLength * MsPerSecond
  }

  /** Where segment `i` ends: one nominal span after its start, cut at the end
      of the track. */
  function SegmentEnd(i: nat, lenMs: nat, segmentLength: nat): (end: nat)
    ensures end <= lenMs && end <= (i + 1) * SpanMs(segmentLength)
    ensures end == lenMs || end == (i + 1) * SpanMs(segmentLength)
  {
    assert (i + 1) * segmentLength * MsPerSecond == (i + 1) * (segmentLength * MsPerSecond);
    Min((i + 1) * segmentLength * MsPerSecond, lenMs)
  }

  /** The segment with 0-based index `i`. */
  function SegmentAt(i: nat, lenMs: nat, segmentLength: nat): (seg: Segment)
    ensures seg.number == i + 1 && seg.end <= lenMs
    ensures seg.start == i * SpanMs(segmentLength)
  {
    Segment(i + 1, SegmentStart(i, segmentLength), SegmentEnd(i, lenMs, segmentLength))
  }

  /** The segments of a track, in index order. */
  function Segments(lenMs: nat, segmentLength: nat): (segs: seq<Segment>)
    requires segmentLength > 0
    ensures |segs| == SegmentCount(lenMs, segmentLength) >= 1
    ensures forall i :: 0 <= i < |segs| ==> segs[i].number == i + 1 && segs[i].end <= lenMs
  {
    var n := SegmentCount(lenMs, segmentLength);
    seq(n, i requires 0 <= i < n => SegmentAt(i, lenMs, segmentLength))
  }

  /** The first `i + 1` segments are the first `i` followed by segment `i`. */
  lemma SegmentsPrefix(lenMs: nat, segmentLength: nat, i: nat)
    requires segmentLength > 0 && i < SegmentCount(lenMs, segmentLength)
    ensures Segments(lenMs, segmentLength)[..i + 1] ==
              Segments(lenMs, segmentLength)[..i] + [SegmentAt(i, lenMs, segmentLength)]
  {
    var segs := Segments(lenMs, segmentLength);
    assert segs[i] == SegmentAt(i, lenMs, segmentLength);
    assert segs[..i + 1] == segs[..i] + [segs[i]];
  }

  /** Dividing by `a` and then by `b`, both rounding down, is dividing by `a * b`. */
  lemma NestedDivision(x: nat, a: nat, b: nat)
    requires a > 0 && b > 0
    ensures x / a / b == x / (a * b)
  {
    var q1, r1 := x / a, x % a;
    var q2, r2 := q1 / b, q1 % b;
    assert x == a * q1 + r1;
    assert q1 == b * q2 + r2;
    Regroup(a, b, q2, r2);
    assert x == (a * b) * q2 + (a * r2 + r1);
    MulStep(a, r2, b);
    DivisionUnique(x, a * b, q2, a * r2 + r1);
  }

  /** Multiplying a quotient-and-remainder form through by `a`. */
  lemma Regroup(a: nat, b: nat, q: nat, r: nat)
    ensures a * (b * q + r) == (a * b) * q + a * r
  {
    assert a * (b * q + r) == a * (b * q) + a * r;
    assert a * (b * q) == (a * b) * q;
  }

  /** The quotient and remainder of a division are unique. */
  lemma DivisionUnique(x: nat, m: nat, q: nat, r: nat)
    requires m > 0 && r < m && x == m * q + r
    ensures x / m == q && x % m == r
  {
    var q', r' := x / m, x % m;
    assert x == m * q' + r';
    if q' < q {
      MulStep(m, q', q);
    } else if q' > q {
      MulStep(m, q, q');
    }
  }

  /** A larger factor adds at least one more multiple. */
  lemma MulStep(m: nat, a: nat, b: nat)
    requires a < b
    ensures m * a + m <= m * b
  {
    var d := b - a - 1;
    assert m * b == m * (a + 1 + d);
    assert m * (a + 1 + d) == m * a + m + m * d;
  }

  /** The count is the number of whole nominal spans in the track, plus one:
      the segments before the last one fit inside the track, and all of them
      together reach past its end. */
  lemma SegmentCountIsQuotient(lenMs: nat, segmentLength: nat)
    requires segmentLength > 0
    ensures SegmentCount(lenMs, segmentLength) == lenMs / SpanMs(segmentLength) + 1
    ensures (SegmentCount(lenMs, segmentLength) - 1) * SpanMs(segmentLength) <= lenMs
    ensures lenMs < SegmentCount(lenMs, segmentLength) * SpanMs(segmentLength)
  {
    var span := SpanMs(segmentLength);
    NestedDivision(lenMs, MsPerSecond, segmentLength);
    assert MsPerSecond * segmentLength == span;
    var q := lenMs / span;
    assert lenMs == span * q + lenMs % span;
    assert SegmentCount(lenMs, segmentLength) * span == q * span + span;
  }

  /** Segment `i` starts at `i` nominal spans. */
  lemma SegmentStartIsMultiple(i: nat, segmentLength: nat)
    ensures SegmentStart(i, segmentLength) == i * SpanMs(segmentLength)
    ensures SegmentStart(i + 1, segmentLength) == SegmentStart(i, segmentLength) + SpanMs(segmentLength)
  {
    assert i * segmentLength * MsPerSecond == i * (segmentLength * MsPerSecond);
    assert (i + 1) * segmentLength * MsPerSecond == (i + 1) * (segmentLength * MsPerSecond);
  }

  /** Segment `i` runs from `i` nominal spans to one span later, cut at the
      end of the track. */
  lemma SegmentAtInSpans(i: nat, lenMs: nat, segmentLength: nat)
    ensures SegmentAt(i, lenMs, segmentLength).start == i * SpanMs(segmentLength)
    ensures SegmentAt(i, lenMs, segmentLength).end == Min(i * SpanMs(segmentLength) + SpanMs(segmentLength), lenMs)
  {
    SegmentStartIsMultiple(i, segmentLength);
  }

  /** A span that starts no later than another is no longer than it. */
  lemma MonotoneMultiple(i: nat, j: nat, span: nat)
    requires i <= j
    ensures i * span <= j * span
  {
  }

  /** Every segment lies inside the track, starts no later than it ends, and
      is no longer than the nominal span. */
  lemma SegmentBounds(lenMs: nat, segmentLength: nat, i: nat)
    requires segmentLength > 0 && i < SegmentCount(lenMs, segmentLength)
    ensures Segments(lenMs, segmentLength)[i].number == i + 1
    ensures Segments(lenMs, segmentLength)[i].start <= Segments(lenMs, segmentLength)[i].end <= lenMs
    ensures Segments(lenMs, segmentLength)[i].end - Segments(lenMs, segmentLength)[i].start <= SpanMs(segmentLength)
  {
    var n := SegmentCount(lenMs, segmentLength);
    var span := SpanMs(segmentLength);
    SegmentCountIsQuotient(lenMs, segmentLength);
    SegmentStartIsMultiple(i, segmentLength);
    MonotoneMultiple(i, n - 1, span);
  }

  /** The segments tile the track: the first starts at 0, each one ends where
      the next one starts, and the last one ends at the end of the track. */
  lemma SegmentsContiguous(lenMs: nat, segmentLength: nat)
    requires segmentLength > 0
    ensures Segments(lenMs, segmentLength)[0].start == 0
    ensures forall i :: 0 <= i < |Segments(lenMs, segmentLength)| - 1 ==>
              Segments(lenMs, segmentLength)[i].end == Segments(lenMs, segmentLength)[i + 1].start
    ensures Segments(lenMs, segmentLength)[|Segments(lenMs, segmentLength)| - 1].end == lenMs
  {
    var segs := Segments(lenMs, segmentLength);
    var n := |segs|;
    var span := SpanMs(segmentLength);
    SegmentCountIsQuotient(lenMs, segmentLength);
    forall i | 0 <= i < n - 1
      ensures segs[i].end == segs[i + 1].start
    {
      SegmentStartIsMultiple(i, segmentLength);
      MonotoneMultiple(i + 1, n - 1, span);
    }
    SegmentStartIsMultiple(n - 1, segmentLength);
  }

  /** Every millisecond of the track lies in some segment. */
  lemma SegmentsCover(lenMs: nat, segmentLength: nat, t: nat)
    requires segmentLength > 0 && t < lenMs
    ensures exists i :: 0 <= i < |Segments(lenMs, segmentLength)| &&
              Segments(lenMs, segmentLength)[i].start <= t < Segments(lenMs, segmentLength)[i].end
  {
    var segs := Segments(lenMs, segmentLength);
    var span := SpanMs(segmentLength);
    MonotoneMultiple(1, segmentLength, MsPerSecond);
    assert span >= MsPerSecond;
    DivisionMonotone(0, t, span);
    var i := t / span;
    assert i < |segs| by {
      SegmentCountIsQuotient(lenMs, segmentLength);
      DivisionMonotone(t, lenMs, span);
    }
    var seg := SegmentAt(i, lenMs, segmentLength);
    assert seg.start <= t < seg.end by {
      SegmentAtInSpans(i, lenMs, segmentLength);
      DivisionBrackets(t, span);
    }
    assert segs[i] == seg;
  }

  /** A number lies between its quotient's multiple and the next one. */
  lemma DivisionBrackets(t: nat, m: nat)
    requires m > 0
    ensures (t / m) * m <= t < (t / m) * m + m
  {
    assert t == m * (t / m) + t % m;
  }

  /** Division by a positive number is monotone. */
  lemma DivisionMonotone(x: nat, y: nat, m: nat)
    requires m > 0 && x <= y
    ensures x / m <= y / m
  {
    var qx, qy := x / m, y / m;
    assert x == m * qx + x % m;
    assert y == m * qy + y % m;
    if qx > qy {
      MulStep(m, qy, qx);
    }
  }

  /** Segments do not overlap: an earlier segment ends no later than a later
      one starts. */
  lemma SegmentsDisjoint(lenMs: nat, segmentLength: nat, i: nat, j: nat)
    requires segmentLength > 0 && i < j < |Segments(lenMs, segmentLength)|
    ensures Segments(lenMs, segmentLength)[i].end <= Segments(lenMs, segmentLength)[j].start
  {
    var span := SpanMs(segmentLength);
    SegmentStartIsMultiple(i, segmentLength);
    SegmentStartIsMultiple(j, segmentLength);
    MonotoneMultiple(i + 1, j, span);
  }

  /** The last segment is empty exactly when the track length is a whole
      number of nominal spans, zero included: the extra segment of the count. */
  lemma LastSegmentEmptyIff(lenMs: nat, segmentLength: nat)
    requires segmentLength > 0
    ensures var segs := Segments(lenMs, segmentLength);
            segs[|segs| - 1].start == segs[|segs| - 1].end <==> lenMs % SpanMs(segmentLength) == 0
  {
    var segs := Segments(lenMs, segmentLength);
    var n := |segs|;
    var span := SpanMs(segmentLength);
    SegmentCountIsQuotient(lenMs, segmentLength);
    SegmentsContiguous(lenMs, segmentLength);
    assert segs[n - 1] == SegmentAt(n - 1, lenMs, segmentLength);
    assert segs[n - 1].start == (lenMs / span) * span;
    assert segs[n - 1].end == lenMs;
    MultipleIff(lenMs, span);
  }

  /** A number is its quotient's multiple exactly when the remainder is zero. */
  lemma MultipleIff(x: nat, m: nat)
    requires m > 0
    ensures (x / m) * m == x <==> x % m == 0
  {
    assert x == m * (x / m) + x % m;
  }

  /** Milliseconds covered by a list of segments, counted segment by segment. */
  function CoveredMs(segs: seq<Segment>): int
  {
    if segs == [] then 0 else CoveredMs(segs[..|segs| - 1]) + (segs[|segs| - 1].end - segs[|segs| - 1].start)
  }

  /** Each segment ends where the next one starts. */
  predicate Contiguous(segs: seq<Segment>)
  {
    forall i :: 0 <= i < |segs| - 1 ==> segs[i].end == segs[i + 1].start
  }

  /** The lengths of contiguous segments add up to the distance from the first
      start to the last end. */
  lemma {:induction false} ContiguousTelescopes(segs: seq<Segment>)
    requires |segs| > 0 && Contiguous(segs)
    ensures CoveredMs(segs) == segs[|segs| - 1].end - segs[0].start
    decreases |segs|
  {
    if |segs| > 1 {
      var init := segs[..|segs| - 1];
      assert Contiguous(init);
      ContiguousTelescopes(init);
      assert init[|init| - 1] == segs[|segs| - 2];
    } else {
      assert segs[..0] == [];
    }
  }

  /** The segment lengths add up to the track length: no millisecond is
      skipped or counted twice. */
  lemma SegmentsCoverExactly(lenMs: nat, segmentLength: nat)
    requires segmentLength > 0
    ensures CoveredMs(Segments(lenMs, segmentLength)) == lenMs
  {
    SegmentsContiguous(lenMs, segmentLength);
    ContiguousTelescopes(Segments(lenMs, segmentLength));
  }

  /** A 150-second track with the default length gives three segments, the
      last one 30 seconds long. */
  lemma Example150Seconds()
    ensures Segments(150000, DefaultSegmentLength) ==
              [Segment(1, 0, 60000), Segment(2, 60000, 120000), Segment(3, 120000, 150000)]
  {
    assert SegmentCount(150000, DefaultSegmentLength) == 3;
  }

  /** A 120-second track with the default length gives three segments, the
      last one empty. */
  lemma Example120Seconds()
    ensures Segments(120000, DefaultSegmentLength) ==
              [Segment(1, 0, 60000), Segment(2, 60000, 120000), Segment(3, 120000, 120000)]
  {
    assert SegmentCount(120000, DefaultSegmentLength) == 3;
  }

  /** The temporary file of a segment carries its 1-based number. */
  lemma TempFileNameCarriesNumber(seg: Segment)
    ensures var name := seg.TempFileName();
            |name| > 17 && name[..13] == "temp_segment_" && name[|name| - 4..] == ".wav" &&
            AllDigits(name[13..|name| - 4]) && ParseNat(name[13..|name| - 4]) == seg.number
  {
    var name := seg.TempFileName();
    assert name[13..|name| - 4] == NatToString(seg.number);
    ParseNatToString(seg.number);
  }

  /** The segments of one run are exported to pairwise distinct files. */
  lemma TempFileNamesDistinct(lenMs: nat, segmentLength: nat, i: nat, j: nat)
    requires segmentLength > 0
    requires i < |Segments(lenMs, segmentLength)| && j < |Segments(lenMs, segmentLength)| && i != j
    ensures Segments(lenMs, segmentLength)[i].TempFileName() != Segments(lenMs, segmentLength)[j].TempFileName()
  {
    var segs := Segments(lenMs, segmentLength);
    TempFileNameCarriesNumber(segs[i]);
    TempFileNameCarriesNumber(segs[j]);
  }
}
