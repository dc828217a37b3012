/**
 One pass of the frame loop, and the loop itself, as pure functions.

 For each captured frame the detector either returns its results, whose
 labels are counted into a sample that is appended to the history, or it
 raises before the append, in which case the history is left as it was.
 Either way the percentages, the summary colour and the report for the frame
 are then computed from the history as it now stands. The loop stops at the
 first frame the camera fails to deliver.
 */
module Frames {
  import opened Labels
  import opened Window
  import opened Aggregate
  import opened Colours

  /** What the emotion detector did with one frame. */
  datatype Outcome = Analyzed(labels: seq<string>) | Failed

  /** What a frame contributes: a detector outcome, or the end of the stream. */
  datatype Capture = Captured(outcome: Outcome) | ReadFailed

  /** What the loop produces for one frame, and the history it leaves behind. */
  datatype Report = Report(history: seq<Sample>, percent: Percentages, summary: Bgr, boxes: seq<Bgr>)

  /**
   The history after one frame: the frame's sample appended, or, when the
   analysis failed, the history as it was.
   */
  function NextHistory(h: seq<Sample>, o: Outcome): (h': seq<Sample>)
    requires |h| <= MaxFrames
    ensures |h'| <= MaxFrames
    ensures o.Failed? ==> h' == h
    ensures o.Analyzed? ==> h' == Newest(h + [Classify(o.labels)], MaxFrames)
    ensures o.Analyzed? ==> |h'| == Min(|h| + 1, MaxFrames)
    ensures o.Analyzed? ==> h'[|h'| - 1] == Classify(o.labels)
  {
    match o
    case Analyzed(labels) => Append(h, Classify(labels), MaxFrames)
    case Failed => h
  }

  /**
   One frame: count, append, summarise, colour. A failed analysis appends
   nothing and draws no box; the summary is recomputed from the history
   as it was.
   */
  function Step(h: seq<Sample>, o: Outcome): (r: Report)
    requires |h| <= MaxFrames
    ensures r.history == NextHistory(h, o)
    ensures r.percent == Percent(r.history)
    ensures o.Failed? ==> r.boxes == []
    ensures o.Analyzed? ==> r.boxes == BoxColours(o.labels)
    ensures r.summary == Green <==> Sum(r.history).happy >= Sum(r.history).sad
    ensures r.summary == Red <==> Sum(r.history).happy < Sum(r.history).sad
  {
    var h' := NextHistory(h, o);
    var p := Percent(h');
    SummaryGreenIff(h');
    Report(h', p, SummaryColour(p), if o.Analyzed? then BoxColours(o.labels) else [])
  }

  /** The history after a run of frames. */
  function Run(h: seq<Sample>, os: seq<Outcome>): (r: seq<Sample>)
    requires |h| <= MaxFrames
    ensures |r| <= MaxFrames
    decreases |os|
  {
    if |os| == 0 then h else Run(NextHistory(h, os[0]), os[1..])
  }

  /** The samples of the analysed frames, in order; failed frames have none. */
  function Successes(os: seq<Outcome>): seq<Sample>
    decreases |os|
  {
    if |os| == 0 then []
    else (match os[0] case Analyzed(labels) => [Classify(labels)] case Failed => []) + Successes(os[1..])
  }

  /**
   After any run of frames the history is exactly the newest twenty samples
   of the analysed frames (all of them while there are fewer), oldest
   first; failed frames leave no trace in it.
   */
  lemma RunKeepsNewest(h: seq<Sample>, os: seq<Outcome>)
    requires |h| <= MaxFrames
    ensures Run(h, os) == Newest(h + Successes(os), MaxFrames)
    ensures |Run(h, os)| == Min(|h| + |Successes(os)|, MaxFrames)
  {
    RunIsAppendAll(h, os);
    AppendAllKeepsNewest(h, Successes(os), MaxFrames);
  }

  /** A run of frames is the deque fed the analysed frames' samples. */
  lemma {:induction false} RunIsAppendAll(h: seq<Sample>, os: seq<Outcome>)
    requires |h| <= MaxFrames
    ensures Run(h, os) == AppendAll(h, Successes(os), MaxFrames)
    decreases |os|
  {
    if |os| > 0 {
      var rest := Successes(os[1..]);
      RunIsAppendAll(NextHistory(h, os[0]), os[1..]);
      match os[0]
      case Analyzed(labels) =>
        var s := Classify(labels);
        var ss := [s] + rest;
        assert Successes(os) == ss;
        assert ss[0] == s && ss[1..] == rest;
        assert AppendAll(h, ss, MaxFrames) == AppendAll(Append(h, s, MaxFrames), rest, MaxFrames);
      case Failed =>
        assert Successes(os) == [] + rest;
        assert [] + rest == rest;
    }
  }

  /** Twenty analysed frames fill the history, and it stays full. */
  lemma FullAfterTwentyFrames(h: seq<Sample>, os: seq<Outcome>)
    requires |h| <= MaxFrames
    requires |Successes(os)| >= MaxFrames
    ensures |Run(h, os)| == MaxFrames
    ensures Run(h, os) == Successes(os)[|Successes(os)| - MaxFrames..]
  {
    RunKeepsNewest(h, os);
    var ss := Successes(os);
    assert (h + ss)[|h + ss| - MaxFrames..] == ss[|ss| - MaxFrames..];
  }

  /** The reports of a run of frames, one per frame. */
  function Reports(h: seq<Sample>, os: seq<Outcome>): (rs: seq<Report>)
    requires |h| <= MaxFrames
    ensures |rs| == |os|
    decreases |os|
  {
    if |os| == 0 then []
    else
      var r := Step(h, os[0]);
      [r] + Reports(r.history, os[1..])
  }

  /** Running one more frame appends its report, computed from the run's history. */
  lemma {:induction false} ReportsSnoc(h: seq<Sample>, os: seq<Outcome>, o: Outcome)
    requires |h| <= MaxFrames
    ensures Reports(h, os + [o]) == Reports(h, os) + [Step(Run(h, os), o)]
    decreases |os|
  {
    if |os| == 0 {
      assert os + [o] == [o];
    } else {
      var r := Step(h, os[0]);
      assert (os + [o])[1..] == os[1..] + [o];
      ReportsSnoc(r.history, os[1..], o);
    }
  }

  /** Each report carries the history the run has reached after its frame. */
  lemma {:induction false} ReportsCarryRunHistory(h: seq<Sample>, os: seq<Outcome>)
    requires |h| <= MaxFrames && |os| > 0
    ensures Reports(h, os)[|os| - 1].history == Run(h, os)
    decreases |os|
  {
    if |os| > 1 {
      ReportsCarryRunHistory(Step(h, os[0]).history, os[1..]);
    }
  }

  /**
   A frame whose analysis fails repeats the previous frame's percentages
   and summary colour: nothing was appended, so the summary is recomputed
   from the same history.
   */
  lemma FailedFrameRepeatsSummary(h: seq<Sample>, os: seq<Outcome>)
    requires |h| <= MaxFrames && |os| > 0
    ensures Reports(h, os + [Failed])[|os|].history == Reports(h, os)[|os| - 1].history
    ensures Reports(h, os + [Failed])[|os|].percent == Reports(h, os)[|os| - 1].percent
    ensures Reports(h, os + [Failed])[|os|].summary == Reports(h, os)[|os| - 1].summary
  {
    var n := |os| - 1;
    var last := Reports(h, os)[n];
    ReportsSnoc(h, os[..n], os[n]);
    assert os[..n] + [os[n]] == os;
    assert last == Step(Run(h, os[..n]), os[n]);
    ReportsCarryRunHistory(h, os);
    var next := Step(Run(h, os), Failed);
    ReportsSnoc(h, os, Failed);
    assert Reports(h, os + [Failed])[|os|] == next;
    assert next.history == last.history;
  }

  /**
   A frame whose faces all carry other labels (or that has no face) adds a
   `(0, 0)` sample: while the history has room the percentages stay as they
   were; once full, the split moves only by the evicted sample.
   */
  lemma UncountedFrameKeepsSplit(h: seq<Sample>, labels: seq<string>)
    requires |h| < MaxFrames
    requires forall i :: 0 <= i < |labels| ==> !Counted(labels[i])
    ensures Step(h, Analyzed(labels)).percent == Percent(h)
    ensures |Step(h, Analyzed(labels)).history| == |h| + 1
  {
    OnlyUncountedIsZero(labels);
    AppendTotalsWithRoom(h, Zero, MaxFrames);
  }

  /** On a full history an uncounted frame removes the oldest sample's faces from the totals. */
  lemma UncountedFrameWhenFull(h: seq<Sample>, labels: seq<string>)
    requires |h| == MaxFrames
    requires forall i :: 0 <= i < |labels| ==> !Counted(labels[i])
    ensures Add(Sum(Step(h, Analyzed(labels)).history), h[0]) == Sum(h)
  {
    OnlyUncountedIsZero(labels);
    AppendTotalsWhenFull(h, Zero, MaxFrames);
  }

  /**
   The stream: one report per captured frame, stopping at the first frame
   the camera fails to deliver.
   */
  function Stream(h: seq<Sample>, cs: seq<Capture>): (rs: seq<Report>)
    requires |h| <= MaxFrames
    ensures |rs| <= |cs|
    ensures forall i :: 0 <= i < |rs| ==> cs[i].Captured?
    ensures |rs| < |cs| ==> cs[|rs|].ReadFailed?
    decreases |cs|
  {
    if |cs| == 0 then []
    else match cs[0]
      case ReadFailed => []
      case Captured(o) =>
        var r := Step(h, o);
        var rest := Stream(r.history, cs[1..]);
        assert forall i :: 1 <= i < |rest| + 1 ==> cs[i] == cs[1..][i - 1];
        [r] + rest
  }

  /** The frames the camera delivered, each with its detector outcome. */
  function Captures(os: seq<Outcome>): (cs: seq<Capture>)
    ensures |cs| == |os|
    ensures forall i :: 0 <= i < |os| ==> cs[i] == Captured(os[i])
  {
    seq(|os|, i requires 0 <= i < |os| => Captured(os[i]))
  }

  /** Until the camera fails, the stream reports exactly what the frame loop computes. */
  lemma {:induction false} StreamIsReports(h: seq<Sample>, os: seq<Outcome>, tail: seq<Capture>)
    requires |h| <= MaxFrames
    requires |tail| == 0 || tail[0].ReadFailed?
    ensures Stream(h, Captures(os) + tail) == Reports(h, os)
    decreases |os|
  {
    if |os| == 0 {
      assert Captures(os) + tail == tail;
    } else {
      var cs := Captures(os) + tail;
      var r := Step(h, os[0]);
      assert cs[0] == Captured(os[0]);
      assert cs[1..] == Captures(os[1..]) + tail;
      StreamIsReports(r.history, os[1..], tail);
      assert Stream(h, cs) == [r] + Stream(r.history, cs[1..]);
    }
  }

  /**
   A history of capacity three fed (1,0), (0,1), (1,0) reports two thirds
   happy; a fourth sample (0,1) evicts the first and turns the split around.
   */
  lemma CapacityThreeScenario()
    ensures var h3 := Append(Append(Append([], Sample(1, 0), 3), Sample(0, 1), 3), Sample(1, 0), 3);
      && Percent(h3) == Percentages(200.0 / 3.0, 100.0 / 3.0)
      && Append(h3, Sample(0, 1), 3) == [Sample(0, 1), Sample(1, 0), Sample(0, 1)]
      && Percent(Append(h3, Sample(0, 1), 3)) == Percentages(100.0 / 3.0, 200.0 / 3.0)
  {
    var h1 := Append([], Sample(1, 0), 3);
    assert h1 == [Sample(1, 0)];
    var h2 := Append(h1, Sample(0, 1), 3);
    assert h2 == [Sample(1, 0), Sample(0, 1)];
    var h3 := Append(h2, Sample(1, 0), 3);
    assert h3 == [Sample(1, 0), Sample(0, 1), Sample(1, 0)];
    ThreeSamples(Sample(1, 0), Sample(0, 1), Sample(1, 0));
    assert Percent(h3) == Shares(Sample(2, 1));
    SharesOfThree(Sample(2, 1));
    var h4 := Append(h3, Sample(0, 1), 3);
    assert h4 == [Sample(0, 1), Sample(1, 0), Sample(0, 1)];
    ThreeSamples(Sample(0, 1), Sample(1, 0), Sample(0, 1));
    assert Percent(h4) == Shares(Sample(1, 2));
    SharesOfThree(Sample(1, 2));
  }

  /** The split of three faces. */
  lemma SharesOfThree(t: Sample)
    requires t.happy + t.sad == 3
    ensures Shares(t) == Percentages((t.happy as real) * 100.0 / 3.0, (t.sad as real) * 100.0 / 3.0)
  {
    assert Shares(t) == Percentages(PercentOf(t.happy, 3), PercentOf(t.sad, 3));
  }

  lemma ThreeSamples(a: Sample, b: Sample, c: Sample)
    ensures Sum([a, b, c]) == Add(Add(a, b), c)
  {
    SumSnoc([a, b], c);
    SumSnoc([a], b);
    SumSnoc([], a);
    assert [a, b] + [c] == [a, b, c];
    assert [a] + [b] == [a, b];
    assert [] + [a] == [a];
  }
}
