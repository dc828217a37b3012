/**
 Turning the labels the emotion detector reports for one frame into the
 frame's `(happy, sad)` sample.

 Each detector result carries a `dominant_emotion` string. The frame keeps a
 two-key tally `{'happy': 0, 'sad': 0}` and bumps a key only when the label is
 literally one of those two keys; every other label ("neutral", "angry", ...)
 is ignored by the tally, although its face is still drawn.
 */
module Labels {

  /** One frame's tally: how many faces were labelled "happy" and "sad". */
  datatype Sample = Sample(happy: nat, sad: nat)

  const Happy: string := "happy"
  const Sad: string := "sad"

  /** The empty tally a frame starts from. */
  const Zero: Sample := Sample(0, 0)

  /** A label is counted exactly when it is one of the tally's two keys. */
  predicate Counted(emotion: string)
  {
    emotion == Happy || emotion == Sad
  }

  /** Component-wise sum of two tallies. */
  function Add(a: Sample, b: Sample): Sample
  {
    Sample(a.happy + b.happy, a.sad + b.sad)
  }

  /** One pass of the counting loop: bump the key that matches `emotion`, if any. */
  function Tally(acc: Sample, emotion: string): Sample
  {
    if emotion == Happy then acc.(happy := acc.happy + 1)
    else if emotion == Sad then acc.(sad := acc.sad + 1)
    else acc
  }

  /** The frame's sample: the counting loop run over all labels in order. */
  function Classify(labels: seq<string>): Sample
    decreases |labels|
  {
    if |labels| == 0 then Zero
    else
      var n := |labels| - 1;
      Tally(Classify(labels[..n]), labels[n])
  }

  /**
   The sample counts, for each of the two keys, the occurrences of that
   key among the labels, whatever their order and whatever other labels
   surround them.
   */
  lemma {:induction false} ClassifyCountsOccurrences(labels: seq<string>)
    ensures Classify(labels).happy == multiset(labels)[Happy]
    ensures Classify(labels).sad == multiset(labels)[Sad]
    decreases |labels|
  {
    if |labels| > 0 {
      var n := |labels| - 1;
      ClassifyCountsOccurrences(labels[..n]);
      assert labels == labels[..n] + [labels[n]];
    }
  }

  /** The counting loop as `generate_frames` writes it, over a mutable tally. */
  method CountEmotions(labels: seq<string>) returns (s: Sample)
    ensures s == Classify(labels)
    ensures s.happy == multiset(labels)[Happy]
    ensures s.sad == multiset(labels)[Sad]
  {
    s := Zero;
    var i := 0;
    while i < |labels|
      invariant 0 <= i <= |labels|
      invariant s == Classify(labels[..i])
    {
      var emotion := labels[i];
      if emotion == Happy {
        s := s.(happy := s.happy + 1);
      } else if emotion == Sad {
        s := s.(sad := s.sad + 1);
      }
      assert labels[..i + 1][..i] == labels[..i];
      i := i + 1;
    }
    assert labels[..i] == labels;
    ClassifyCountsOccurrences(labels);
  }

  /** Counting distributes over splitting the detector results. */
  lemma {:induction false} ClassifyConcat(a: seq<string>, b: seq<string>)
    ensures Classify(a + b) == Add(Classify(a), Classify(b))
    decreases |b|
  {
    if |b| == 0 {
      assert a + b == a;
    } else {
      var n := |b| - 1;
      assert (a + b)[..|a| + n] == a + b[..n];
      ClassifyConcat(a, b[..n]);
    }
  }

  /** A label other than the two keys leaves the frame's sample as it was. */
  lemma UncountedIgnored(labels: seq<string>, emotion: string)
    requires !Counted(emotion)
    ensures Classify(labels + [emotion]) == Classify(labels)
  {
    ClassifyConcat(labels, [emotion]);
    assert [emotion][..0] == [];
  }

  /** The loop's `total_faces`: how many labels the tally counts. */
  function CountedFaces(labels: seq<string>): nat
    decreases |labels|
  {
    if |labels| == 0 then 0
    else CountedFaces(labels[..|labels| - 1]) + (if Counted(labels[|labels| - 1]) then 1 else 0)
  }

  /**
   The two counts together are the number of counted labels: every face
   counts at most once, and exactly the "happy" and "sad" faces count.
   */
  lemma {:induction false} ClassifyCountsCountedFaces(labels: seq<string>)
    ensures Classify(labels).happy + Classify(labels).sad == CountedFaces(labels)
    ensures CountedFaces(labels) <= |labels|
    ensures CountedFaces(labels) == |labels| <==> forall i :: 0 <= i < |labels| ==> Counted(labels[i])
    decreases |labels|
  {
    if |labels| > 0 {
      var n := |labels| - 1;
      var pre := labels[..n];
      ClassifyCountsCountedFaces(pre);
      if CountedFaces(labels) == |labels| {
        assert CountedFaces(pre) == n && Counted(labels[n]);
        forall i | 0 <= i < |labels| ensures Counted(labels[i]) {
          if i < n { assert labels[i] == pre[i]; }
        }
      }
      if forall i :: 0 <= i < |labels| ==> Counted(labels[i]) {
        assert forall i :: 0 <= i < n ==> Counted(pre[i]) by {
          forall i | 0 <= i < n ensures Counted(pre[i]) { assert pre[i] == labels[i]; }
        }
      }
    }
  }

  /** A frame whose faces all carry other labels yields the empty sample. */
  lemma {:induction false} OnlyUncountedIsZero(labels: seq<string>)
    requires forall i :: 0 <= i < |labels| ==> !Counted(labels[i])
    ensures Classify(labels) == Zero
    decreases |labels|
  {
    if |labels| > 0 {
      var n := |labels| - 1;
      OnlyUncountedIsZero(labels[..n]);
      UncountedIgnored(labels[..n], labels[n]);
      assert labels[..n] + [labels[n]] == labels;
    }
  }
}
