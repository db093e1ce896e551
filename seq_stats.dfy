/** Sum, maximum, minimum and mean of a sequence of reals: the aggregations
    the rolling windows and the label use. */
module SeqStats {

  function Sum(w: seq<real>): real
  {
    if w == [] then 0.0 else w[0] + Sum(w[1..])
  }

  /** The largest value; it is one of the values and bounds all of them. */
  function Max(w: seq<real>): (m: real)
    requires w != []
    ensures m in w
    ensures forall k :: 0 <= k < |w| ==> w[k] <= m
  {
    if |w| == 1 then w[0]
    else
      var rest := Max(w[1..]);
      if w[0] >= rest then w[0] else rest
  }

  /** The smallest value; it is one of the values and bounds all of them. */
  function Min(w: seq<real>): (m: real)
    requires w != []
    ensures m in w
    ensures forall k :: 0 <= k < |w| ==> m <= w[k]
  {
    if |w| == 1 then w[0]
    else
      var rest := Min(w[1..]);
      if w[0] <= rest then w[0] else rest
  }

  function Mean(w: seq<real>): real
    requires w != []
  {
    Sum(w) / (|w| as real)
  }

  /** A sum of values that are all at most `b` is at most `|w| * b`. */
  lemma {:induction false} SumAtMost(w: seq<real>, b: real)
    requires forall k :: 0 <= k < |w| ==> w[k] <= b
    ensures Sum(w) <= (|w| as real) * b
  {
    if w != [] {
      SumAtMost(w[1..], b);
      assert (|w| as real) * b == (|w[1..]| as real) * b + b;
    }
  }

  /** A sum of values that are all at least `b` is at least `|w| * b`. */
  lemma {:induction false} SumAtLeast(w: seq<real>, b: real)
    requires forall k :: 0 <= k < |w| ==> b <= w[k]
    ensures (|w| as real) * b <= Sum(w)
  {
    if w != [] {
      SumAtLeast(w[1..], b);
      assert (|w| as real) * b == (|w[1..]| as real) * b + b;
    }
  }

  /** Dividing by a positive count keeps an upper bound: `x <= n * b` gives `x / n <= b`. */
  lemma DivideAtMost(x: real, n: real, b: real)
    requires n > 0.0 && x <= n * b
    ensures x / n <= b
  {
    assert x / n * n == x;
  }

  lemma DivideAtLeast(x: real, n: real, b: real)
    requires n > 0.0 && n * b <= x
    ensures b <= x / n
  {
    assert x / n * n == x;
  }

  /** The mean lies between the minimum and the maximum. */
  lemma MeanBetweenMinAndMax(w: seq<real>)
    requires w != []
    ensures Min(w) <= Mean(w) <= Max(w)
  {
    SumAtMost(w, Max(w));
    SumAtLeast(w, Min(w));
    DivideAtMost(Sum(w), |w| as real, Max(w));
    DivideAtLeast(Sum(w), |w| as real, Min(w));
  }
}
