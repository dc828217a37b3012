/**
 The bounded history of per-frame samples: a `deque(maxlen=cap)`.

 Appending to a deque that already holds `cap` elements first drops the
 element at the left end (the oldest one), so the deque always holds the
 newest `cap` elements it has been given, oldest first.
 */
module Window {

  /** The history length the application uses (`max_frames`). */
  const MaxFrames: nat := 20

  function Min(a: nat, b: nat): nat
  {
    if a <= b then a else b
  }

  /** The last `min(n, |s|)` elements of `s`, in their original order. */
  function Newest<T>(s: seq<T>, n: nat): (r: seq<T>)
    ensures |r| == Min(n, |s|)
  {
    if |s| <= n then s else s[|s| - n..]
  }

  /** `deque.append` on a deque with `maxlen = cap`. */
  function Append<T>(h: seq<T>, x: T, cap: nat): (r: seq<T>)
    requires |h| <= cap
    ensures |r| <= cap
    ensures |h| < cap ==> |r| == |h| + 1
    ensures |h| == cap ==> |r| == cap
    ensures r == Newest(h + [x], cap)
    ensures cap > 0 ==> r[|r| - 1] == x
  {
    if |h| < cap then h + [x]
    else if cap == 0 then []
    else h[1..] + [x]
  }

  /**
   On a full history, the append removes exactly the oldest sample: every
   other sample survives, one place further to the front, and the new sample
   is last.
   */
  lemma AppendFullDropsOldest<T>(h: seq<T>, x: T, cap: nat)
    requires |h| == cap > 0
    ensures |Append(h, x, cap)| == |h|
    ensures forall i :: 0 <= i < |h| - 1 ==> Append(h, x, cap)[i] == h[i + 1]
    ensures Append(h, x, cap)[|h| - 1] == x
  {
  }

  /** Appending every element of `xs` in turn. */
  function AppendAll<T>(h: seq<T>, xs: seq<T>, cap: nat): (r: seq<T>)
    requires |h| <= cap
    ensures |r| <= cap
    decreases |xs|
  {
    if |xs| == 0 then h
    else AppendAll(Append(h, xs[0], cap), xs[1..], cap)
  }

  /**
   However many samples are pushed, the deque holds exactly the newest
   `cap` of everything it has been given (all of them while fewer than
   `cap`), in arrival order.
   */
  lemma {:induction false} AppendAllKeepsNewest<T>(h: seq<T>, xs: seq<T>, cap: nat)
    requires |h| <= cap
    ensures AppendAll(h, xs, cap) == Newest(h + xs, cap)
    ensures |AppendAll(h, xs, cap)| == Min(|h| + |xs|, cap)
    decreases |xs|
  {
    if |xs| == 0 {
      assert h + xs == h;
    } else {
      var h' := Append(h, xs[0], cap);
      AppendAllKeepsNewest(h', xs[1..], cap);
      NewestOfNewestAll(h + [xs[0]], xs[1..], cap);
      calc {
        AppendAll(h, xs, cap);
        AppendAll(h', xs[1..], cap);
        Newest(h' + xs[1..], cap);
        Newest(Newest(h + [xs[0]], cap) + xs[1..], cap);
        Newest((h + [xs[0]]) + xs[1..], cap);
        { assert (h + [xs[0]]) + xs[1..] == h + xs; }
        Newest(h + xs, cap);
      }
    }
  }

  /** `Newest` may be applied early: trimming a prefix first changes nothing. */
  lemma NewestOfNewestAll<T>(s: seq<T>, ys: seq<T>, cap: nat)
    ensures Newest(Newest(s, cap) + ys, cap) == Newest(s + ys, cap)
  {
    var t := Newest(s, cap);
    var a := Newest(t + ys, cap);
    var b := Newest(s + ys, cap);
    assert |a| == |b|;
    forall i | 0 <= i < |a| ensures a[i] == b[i] {
      var j := |t + ys| - |a| + i;
      if j < |t| {
        assert a[i] == t[j];
      } else {
        assert a[i] == ys[j - |t|];
      }
    }
  }

  /** Once `cap` or more samples have been pushed, the history is full. */
  lemma FullAfterEnoughPushes<T>(h: seq<T>, xs: seq<T>, cap: nat)
    requires |h| <= cap <= |xs|
    ensures |AppendAll(h, xs, cap)| == cap
    ensures AppendAll(h, xs, cap) == xs[|xs| - cap..]
  {
    AppendAllKeepsNewest(h, xs, cap);
    assert (h + xs)[|h + xs| - cap..] == xs[|xs| - cap..];
  }
}
