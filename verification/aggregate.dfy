/**
 The summary over the history: the happy and sad totals summed over every
 retained frame, and the two percentages derived from them.

 Percentages are exact reals here; the application computes them in
 floating point and prints them with one decimal.
 */
module Aggregate {
  import opened Labels
  import Window

  /** Both totals at once: the component-wise sum of the retained samples. */
  function Sum(h: seq<Sample>): Sample
    decreases |h|
  {
    if |h| == 0 then Zero else Add(Sum(h[..|h| - 1]), h[|h| - 1])
  }

  /** `happy_total + sad_total`. */
  function Total(h: seq<Sample>): nat
  {
    Sum(h).happy + Sum(h).sad
  }

  datatype Percentages = Percentages(happy: real, sad: real)

  const NoFaces: Percentages := Percentages(0.0, 0.0)

  /** `(part / total) * 100`, the application's percentage formula. */
  function PercentOf(part: nat, total: nat): real
    requires total > 0
  {
    (part as real / total as real) * 100.0
  }

  /**
   The percentages of a pair of totals. With no happy or sad face at all
   both are zero; otherwise they add up to 100 and each lies in [0, 100].
   */
  function Shares(t: Sample): (p: Percentages)
    ensures t.happy + t.sad == 0 ==> p == NoFaces
    ensures t.happy + t.sad > 0 ==> p.happy + p.sad == 100.0
    ensures 0.0 <= p.happy <= 100.0 && 0.0 <= p.sad <= 100.0
  {
    var total := t.happy + t.sad;
    if total > 0 then
      assert total as real == t.happy as real + t.sad as real;
      ShareArithmetic(t.happy as real, t.sad as real);
      Percentages(PercentOf(t.happy, total), PercentOf(t.sad, total))
    else
      NoFaces
  }

  /** The real-number facts behind the split of 100. */
  lemma ShareArithmetic(a: real, b: real)
    requires a >= 0.0 && b >= 0.0 && a + b > 0.0
    ensures (a / (a + b)) * 100.0 + (b / (a + b)) * 100.0 == 100.0
    ensures 0.0 <= (a / (a + b)) * 100.0 <= 100.0
    ensures 0.0 <= (b / (a + b)) * 100.0 <= 100.0
  {
    DivAdd(a, b, a + b);
    SelfDiv(a + b);
    DivAtMostOne(a, a + b);
    DivAtMostOne(b, a + b);
  }

  // Single steps of real arithmetic, stated apart so that each is proved on its own.

  lemma SelfDiv(t: real)
    requires t > 0.0
    ensures t / t == 1.0
  {}

  lemma DivAdd(a: real, b: real, t: real)
    requires t > 0.0
    ensures a / t + b / t == (a + b) / t
  {}

  lemma DivAtMostOne(a: real, t: real)
    requires 0.0 <= a <= t && t > 0.0
    ensures 0.0 <= a / t <= 1.0
  {}

  lemma DivTimes(a: real, t: real)
    requires t > 0.0
    ensures (a / t) * 100.0 * t == 100.0 * a
  {}

  /**
   The two percentages of the history, from its happy and sad totals: both
   zero when the history holds no happy or sad face, otherwise a split of 100.
   */
  function Percent(h: seq<Sample>): (p: Percentages)
    ensures Total(h) == 0 ==> p == NoFaces
    ensures Total(h) > 0 ==> p.happy + p.sad == 100.0
    ensures 0.0 <= p.happy <= 100.0 && 0.0 <= p.sad <= 100.0
  {
    Shares(Sum(h))
  }

  /**
   Each percentage is 100 times its total's share of the combined total
   (both sides are zero when there is no happy or sad face).
   */
  lemma SharesAreShares(t: Sample)
    ensures Shares(t).happy * ((t.happy + t.sad) as real) == 100.0 * (t.happy as real)
    ensures Shares(t).sad * ((t.happy + t.sad) as real) == 100.0 * (t.sad as real)
  {
    var total := t.happy + t.sad;
    if total > 0 {
      ShareOf(t.happy, total);
      ShareOf(t.sad, total);
    }
  }

  /** `PercentOf` undoes a multiplication by the total. */
  lemma ShareOf(part: nat, total: nat)
    requires total > 0
    ensures PercentOf(part, total) * (total as real) == 100.0 * (part as real)
  {
    DivTimes(part as real, total as real);
  }

  /** The summing loops of the application, run over the history in order. */
  method Summarize(h: seq<Sample>) returns (happyPct: real, sadPct: real)
    ensures Percentages(happyPct, sadPct) == Percent(h)
    ensures Total(h) > 0 ==> happyPct + sadPct == 100.0
  {
    var happyTotal: nat := 0;
    var sadTotal: nat := 0;
    var i := 0;
    while i < |h|
      invariant 0 <= i <= |h|
      invariant Sample(happyTotal, sadTotal) == Sum(h[..i])
    {
      assert h[..i + 1][..i] == h[..i];
      happyTotal := happyTotal + h[i].happy;
      sadTotal := sadTotal + h[i].sad;
      i := i + 1;
    }
    assert h[..i] == h;
    var total := happyTotal + sadTotal;
    if total > 0 {
      happyPct := PercentOf(happyTotal, total);
      sadPct := PercentOf(sadTotal, total);
    } else {
      happyPct, sadPct := 0.0, 0.0;
    }
  }

  /** Summing distributes over splitting the history. */
  lemma {:induction false} SumConcat(a: seq<Sample>, b: seq<Sample>)
    ensures Sum(a + b) == Add(Sum(a), Sum(b))
    decreases |b|
  {
    if |b| == 0 {
      assert a + b == a;
    } else {
      var n := |b| - 1;
      assert (a + b)[..|a| + n] == a + b[..n];
      SumConcat(a, b[..n]);
    }
  }

  /**
   The total is zero exactly when every retained sample is `(0, 0)`: the
   empty history and a history of frames without happy or sad faces are the
   only ways to report zero/zero.
   */
  lemma {:induction false} TotalZeroIff(h: seq<Sample>)
    ensures Total(h) == 0 <==> forall i :: 0 <= i < |h| ==> h[i] == Zero
    decreases |h|
  {
    if |h| > 0 {
      var n := |h| - 1;
      TotalZeroIff(h[..n]);
      if forall i :: 0 <= i < |h| ==> h[i] == Zero {
        assert forall i :: 0 <= i < n ==> h[..n][i] == Zero;
      }
      if Total(h) == 0 {
        forall i | 0 <= i < |h| ensures h[i] == Zero {
          if i < n { assert h[i] == h[..n][i]; }
        }
      }
    }
  }

  /**
   How the totals move when a frame's sample is appended to a history of
   capacity `cap` that still has room: the new sample is added.
   */
  lemma AppendTotalsWithRoom(h: seq<Sample>, s: Sample, cap: nat)
    requires |h| < cap
    ensures Sum(Window.Append(h, s, cap)) == Add(Sum(h), s)
  {
    SumSnoc(h, s);
  }

  /**
   On a full history the appended sample is added to the totals and the
   evicted oldest sample is taken away.
   */
  lemma AppendTotalsWhenFull(h: seq<Sample>, s: Sample, cap: nat)
    requires |h| == cap > 0
    ensures Add(Sum(Window.Append(h, s, cap)), h[0]) == Add(Sum(h), s)
  {
    assert Window.Append(h, s, cap) == h[1..] + [s];
    SumSnoc(h[1..], s);
    SumCons(h);
  }

  /** Appending one sample adds it to the totals. */
  lemma SumSnoc(h: seq<Sample>, s: Sample)
    ensures Sum(h + [s]) == Add(Sum(h), s)
  {
    assert (h + [s])[..|h|] == h;
  }

  /** The oldest sample's share of the totals. */
  lemma SumCons(h: seq<Sample>)
    requires |h| > 0
    ensures Sum(h) == Add(h[0], Sum(h[1..]))
  {
    assert h == [h[0]] + h[1..];
    SumConcat([h[0]], h[1..]);
    SumSnoc([], h[0]);
    assert [] + [h[0]] == [h[0]];
  }

  /** Every label of every frame, in order. */
  function Flatten(frames: seq<seq<string>>): seq<string>
    decreases |frames|
  {
    if |frames| == 0 then [] else Flatten(frames[..|frames| - 1]) + frames[|frames| - 1]
  }

  /** One sample per frame. */
  function Samples(frames: seq<seq<string>>): (h: seq<Sample>)
    ensures |h| == |frames|
    ensures forall i :: 0 <= i < |frames| ==> h[i] == Classify(frames[i])
  {
    seq(|frames|, i requires 0 <= i < |frames| => Classify(frames[i]))
  }

  /**
   The happy total over a history of frames is the number of faces labelled
   "happy" across all of those frames, and likewise for "sad".
   */
  lemma {:induction false} SumCountsAllFaces(frames: seq<seq<string>>)
    ensures Sum(Samples(frames)) == Classify(Flatten(frames))
    ensures Sum(Samples(frames)).happy == multiset(Flatten(frames))[Happy]
    ensures Sum(Samples(frames)).sad == multiset(Flatten(frames))[Sad]
    decreases |frames|
  {
    if |frames| > 0 {
      var n := |frames| - 1;
      SumCountsAllFaces(frames[..n]);
      assert Samples(frames)[..n] == Samples(frames[..n]);
      ClassifyConcat(Flatten(frames[..n]), frames[n]);
    }
    ClassifyCountsOccurrences(Flatten(frames));
  }
}
