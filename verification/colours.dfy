/**
 The colour choices of the overlay: one colour per face box, chosen from
 the face's label, and one colour for the summary line, chosen by comparing
 the two percentages. Colours are OpenCV's blue-green-red triples.
 */
module Colours {
  import opened Labels
  import opened Aggregate

  datatype Bgr = Bgr(b: int, g: int, r: int)

  const Green: Bgr := Bgr(0, 255, 0)
  const Red: Bgr := Bgr(0, 0, 255)
  const White: Bgr := Bgr(255, 255, 255)

  /** The box colour of one face: green for "happy", red for "sad", white otherwise. */
  function BoxColour(emotion: string): (c: Bgr)
    ensures c == Green <==> emotion == Happy
    ensures c == Red <==> emotion == Sad
    ensures c == White <==> !Counted(emotion)
  {
    if emotion == Happy then Green
    else if emotion == Sad then Red
    else White
  }

  /** One box per detector result, in the detector's order, counted or not. */
  function BoxColours(labels: seq<string>): (cs: seq<Bgr>)
    ensures |cs| == |labels|
    ensures forall i :: 0 <= i < |labels| ==> cs[i] == BoxColour(labels[i])
  {
    seq(|labels|, i requires 0 <= i < |labels| => BoxColour(labels[i]))
  }

  /** A box is white exactly when its face adds nothing to the frame's sample. */
  lemma WhiteBoxIffUncounted(emotion: string)
    ensures BoxColour(emotion) == White <==> Classify([emotion]) == Zero
  {
    assert [emotion][..0] == [];
  }

  /** Number of boxes of colour `c`. */
  function CountColour(cs: seq<Bgr>, c: Bgr): nat
    decreases |cs|
  {
    if |cs| == 0 then 0
    else CountColour(cs[..|cs| - 1], c) + (if cs[|cs| - 1] == c then 1 else 0)
  }

  /**
   The frame's sample can be read off its boxes: as many green boxes as
   happy faces, as many red boxes as sad faces.
   */
  lemma {:induction false} BoxesMatchSample(labels: seq<string>)
    ensures CountColour(BoxColours(labels), Green) == Classify(labels).happy
    ensures CountColour(BoxColours(labels), Red) == Classify(labels).sad
    decreases |labels|
  {
    if |labels| > 0 {
      var n := |labels| - 1;
      BoxesMatchSample(labels[..n]);
      assert BoxColours(labels)[..n] == BoxColours(labels[..n]);
    }
  }

  /** The summary line is green when happy is at least sad, red otherwise. */
  function SummaryColour(p: Percentages): (c: Bgr)
    ensures c == Green <==> p.happy >= p.sad
    ensures c == Red <==> p.happy < p.sad
  {
    if p.happy >= p.sad then Green else Red
  }

  /**
   Comparing the percentages is comparing the totals: the summary is green
   exactly when the history holds at least as many happy faces as sad ones,
   which includes the empty and all-zero histories.
   */
  lemma SummaryGreenIff(h: seq<Sample>)
    ensures SummaryColour(Percent(h)) == Green <==> Sum(h).happy >= Sum(h).sad
  {
    var t := Sum(h);
    assert Percent(h) == Shares(t);
    SummaryOfShares(t);
  }

  /** The same statement for a pair of totals. */
  lemma SummaryOfShares(t: Sample)
    ensures SummaryColour(Shares(t)) == Green <==> t.happy >= t.sad
  {
    var total := t.happy + t.sad;
    if total > 0 {
      SharesAreShares(t);
      var p := Shares(t);
      ScaledOrder(p.happy, p.sad, total as real, t.happy as real, t.sad as real);
    }
  }

  /** Multiplying by a positive number keeps the order of two reals. */
  lemma ScaledOrder(x: real, y: real, t: real, a: real, b: real)
    requires t > 0.0
    requires x * t == 100.0 * a && y * t == 100.0 * b
    ensures x >= y <==> a >= b
  {
    if x >= y {
      assert x * t >= y * t;
    } else {
      assert x * t < y * t;
    }
  }
}
