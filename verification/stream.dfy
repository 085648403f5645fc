/** `Stream` (soltrade/datastructures.py:188-306): a series of samples,
    oldest first, with queries over a trailing window and crossover
    tests. The numpy array becomes a `seq<real>`; `lag` and `length`
    count samples and are taken non-negative. */
module Stream {
  import opened Python
  import opened Seqs

  /** The window of the series that `mean`, `max`, `min`, `average_gain`
      and `average_loss` read (lines 207-209): first `length` is cut back
      to `n - lag` when `lag + length > n`, then the slice
      `data[-1-lag-length : (-1-lag if lag > 0 else None)]` is taken with
      Python's slice rules.

      Note the asymmetry this produces: with `lag = 0` the window is the
      newest `length + 1` samples, with `lag > 0` it is the `length`
      samples just before the newest `lag + 1`. */
  function Window(data: seq<real>, length: nat, lag: nat): (w: seq<real>)
    ensures lag == 0 ==> w == data[Max0(|data| - 1 - length)..]
    ensures lag > 0 ==> w == data[Max0(|data| - 1 - lag - length)..Max0(|data| - 1 - lag)]
  {
    var n := |data|;
    var len: int := if lag + length > n then n - lag else length;
    Slice(data, -1 - lag - len, if lag > 0 then Some(-1 - lag) else None)
  }

  /** The cut-back at lines 207-208 never changes the window: the slice
      rules clamp the start to 0 anyway. */
  lemma WindowIgnoresClamp(data: seq<real>, length: nat, lag: nat)
    ensures Window(data, length, lag) == Slice(data, -1 - lag - length, if lag > 0 then Some(-1 - lag) else None)
  {
  }

  /** Size of the window: `min(length + 1, n)` samples without lag,
      `min(length, n - 1 - lag)` (never negative) with lag. */
  lemma WindowSize(data: seq<real>, length: nat, lag: nat)
    ensures lag == 0 ==> |Window(data, length, lag)| == if length + 1 <= |data| then length + 1 else |data|
    ensures lag > 0 ==> (|Window(data, length, lag)| ==
      if lag + 1 >= |data| then 0 else if lag + 1 + length <= |data| then length else |data| - 1 - lag)
  {
  }

  /** `np.mean(segment)`; the mean of an empty window is NaN, modelled as
      `None`. */
  function Mean(data: seq<real>, length: nat, lag: nat): (r: Option<real>)
    ensures var w := Window(data, length, lag);
      && (r.Some? <==> |w| > 0)
      && (r.Some? ==> r.value * (|w| as real) == Sum(w))
  {
    var w := Window(data, length, lag);
    if |w| == 0 then None
    else
      QuotientTimes(Sum(w), |w| as real);
      Some(Sum(w) / (|w| as real))
  }

  /** With `lag = 0` the window holds `length + 1` samples: the mean of
      `1 .. 10` over `length = 3` averages `7, 8, 9, 10`. */
  lemma MeanWithoutLagReadsOneMore()
    ensures Mean([1.0, 2.0, 3.0, 4.0, 5.0, 6.0, 7.0, 8.0, 9.0, 10.0], 3, 0) == Some(8.5)
  {
    var data := [1.0, 2.0, 3.0, 4.0, 5.0, 6.0, 7.0, 8.0, 9.0, 10.0];
    var w := Window(data, 3, 0);
    assert w == data[6..];
    assert data[6..] == [7.0, 8.0, 9.0, 10.0];
    assert w[1..] == [8.0, 9.0, 10.0] && w[2..] == [9.0, 10.0] && w[3..] == [10.0];
    assert Sum(w[3..]) == 10.0;
  }

  /** Largest element of a non-empty sequence. */
  function MaxOf(s: seq<real>): (m: real)
    requires |s| > 0
    ensures m in s
    ensures forall i :: 0 <= i < |s| ==> s[i] <= m
  {
    if |s| == 1 then s[0]
    else
      var rest := MaxOf(s[1..]);
      if s[0] >= rest then s[0] else rest
  }

  /** Smallest element of a non-empty sequence. */
  function MinOf(s: seq<real>): (m: real)
    requires |s| > 0
    ensures m in s
    ensures forall i :: 0 <= i < |s| ==> m <= s[i]
  {
    if |s| == 1 then s[0]
    else
      var rest := MinOf(s[1..]);
      if s[0] <= rest then s[0] else rest
  }

  /** `np.max(segment)`, which raises `ValueError` on an empty window. */
  function Max(data: seq<real>, length: nat, lag: nat): (r: Result<real>)
    ensures var w := Window(data, length, lag);
      && (r.Failure? <==> |w| == 0)
      && (r.Failure? ==> r.error == ValueError)
      && (r.Success? ==> r.value in w && forall i :: 0 <= i < |w| ==> w[i] <= r.value)
  {
    var w := Window(data, length, lag);
    if |w| == 0 then Failure(ValueError) else Success(MaxOf(w))
  }

  /** `np.min(segment)`, which raises `ValueError` on an empty window. */
  function Min(data: seq<real>, length: nat, lag: nat): (r: Result<real>)
    ensures var w := Window(data, length, lag);
      && (r.Failure? <==> |w| == 0)
      && (r.Failure? ==> r.error == ValueError)
      && (r.Success? ==> r.value in w && forall i :: 0 <= i < |w| ==> r.value <= w[i])
  {
    var w := Window(data, length, lag);
    if |w| == 0 then Failure(ValueError) else Success(MinOf(w))
  }

  /** The mean of a window lies between its minimum and its maximum, and
      all three exist together. */
  lemma MinMeanMax(data: seq<real>, length: nat, lag: nat)
    ensures Mean(data, length, lag).Some? <==> Max(data, length, lag).Success?
    ensures Mean(data, length, lag).Some? <==> Min(data, length, lag).Success?
    ensures Mean(data, length, lag).Some? ==>
      Min(data, length, lag).value <= Mean(data, length, lag).value <= Max(data, length, lag).value
  {
    var w := Window(data, length, lag);
    if |w| > 0 {
      assert Mean(data, length, lag).value == Sum(w) / (|w| as real);
      assert Min(data, length, lag).value == MinOf(w);
      assert Max(data, length, lag).value == MaxOf(w);
      MeanWithinRange(w);
    }
  }

  lemma MeanWithinRange(w: seq<real>)
    requires |w| > 0
    ensures MinOf(w) <= Sum(w) / (|w| as real) <= MaxOf(w)
  {
    MeanBetweenBounds(w, MinOf(w), MaxOf(w));
  }

  lemma MeanBetweenBounds(w: seq<real>, lo: real, hi: real)
    requires |w| > 0
    requires forall i :: 0 <= i < |w| ==> lo <= w[i] <= hi
    ensures lo <= Sum(w) / (|w| as real) <= hi
  {
    SumBounds(w, lo, hi);
    QuotientBetween(Sum(w), |w|, lo, hi);
  }

  /** The percentage changes of a window (lines 286-291): each step
      `(s[i+1] - s[i]) / s[i] · 100`, leaving out steps from a zero
      sample. */
  function PctChanges(s: seq<real>): (r: seq<real>)
    ensures |r| <= if |s| == 0 then 0 else |s| - 1
    ensures (forall i :: 0 <= i < |s| - 1 ==> s[i] != 0.0) ==> |r| == Max0(|s| - 1)
    decreases |s|
  {
    if |s| < 2 then []
    else
      var rest := PctChanges(s[1..]);
      if s[0] != 0.0 then [(s[1] - s[0]) / s[0] * 100.0] + rest else rest
  }

  /** `np.where(pct > 0, pct, 0)`. */
  function Gains(pcts: seq<real>): (r: seq<real>)
    ensures |r| == |pcts|
    ensures forall i :: 0 <= i < |r| ==> r[i] >= 0.0 && r[i] == if pcts[i] > 0.0 then pcts[i] else 0.0
  {
    if |pcts| == 0 then [] else [if pcts[0] > 0.0 then pcts[0] else 0.0] + Gains(pcts[1..])
  }

  /** `np.where(pct < 0, -pct, 0)`. */
  function Losses(pcts: seq<real>): (r: seq<real>)
    ensures |r| == |pcts|
    ensures forall i :: 0 <= i < |r| ==> r[i] >= 0.0 && r[i] == if pcts[i] < 0.0 then -pcts[i] else 0.0
  {
    if |pcts| == 0 then [] else [if pcts[0] < 0.0 then -pcts[0] else 0.0] + Losses(pcts[1..])
  }

  /** `average_gain` (lines 282-293): mean of the positive percentage
      changes over the window, counting the others as 0; 0 when there is
      no change to average. */
  function AverageGain(data: seq<real>, length: nat, lag: nat): (r: real)
    ensures r >= 0.0
  {
    var pcts := PctChanges(Window(data, length, lag));
    var g := Gains(pcts);
    NonNegativeSum(g);
    if |g| > 0 then Sum(g) / (|g| as real) else 0.0
  }

  /** `average_loss` (lines 295-306): mean of the magnitudes of the
      negative percentage changes, counting the others as 0. */
  function AverageLoss(data: seq<real>, length: nat, lag: nat): (r: real)
    ensures r >= 0.0
  {
    var pcts := PctChanges(Window(data, length, lag));
    var l := Losses(pcts);
    NonNegativeSum(l);
    if |l| > 0 then Sum(l) / (|l| as real) else 0.0
  }

  lemma {:induction false} NonNegativeSum(s: seq<real>)
    requires forall i :: 0 <= i < |s| ==> s[i] >= 0.0
    ensures Sum(s) >= 0.0
  {
    if |s| > 0 {
      NonNegativeSum(s[1..]);
    }
  }

  /** Each change is its gain minus its loss. */
  lemma {:induction false} GainsMinusLosses(pcts: seq<real>)
    ensures Sum(Gains(pcts)) - Sum(Losses(pcts)) == Sum(pcts)
  {
    if |pcts| > 0 {
      GainsMinusLosses(pcts[1..]);
    }
  }

  /** Average gain minus average loss is the mean percentage change. */
  lemma GainLossBalance(data: seq<real>, length: nat, lag: nat)
    ensures var pcts := PctChanges(Window(data, length, lag));
      && (|pcts| == 0 ==> AverageGain(data, length, lag) == 0.0 && AverageLoss(data, length, lag) == 0.0)
      && (|pcts| > 0 ==>
          AverageGain(data, length, lag) - AverageLoss(data, length, lag) == Sum(pcts) / (|pcts| as real))
  {
    var pcts := PctChanges(Window(data, length, lag));
    GainsMinusLosses(pcts);
    if |pcts| > 0 {
      var g, l, n := Sum(Gains(pcts)), Sum(Losses(pcts)), |pcts| as real;
      assert AverageGain(data, length, lag) == g / n;
      assert AverageLoss(data, length, lag) == l / n;
      DivSub(g, l, n);
    }
  }

  lemma QuotientBetween(total: real, count: nat, lo: real, hi: real)
    requires count > 0
    requires lo * (count as real) <= total <= hi * (count as real)
    ensures lo <= total / (count as real) <= hi
  {
    var n := count as real;
    MeanBetween(total / n, n, total, lo, hi);
  }

  lemma DivSub(g: real, l: real, n: real)
    requires n > 0.0
    ensures g / n - l / n == (g - l) / n
  {
  }

  /** A window in which no sample is followed by a lower one, and whose
      samples are positive, has no losses. */
  lemma {:induction false} RisingHasNoLoss(s: seq<real>)
    requires forall i :: 0 <= i < |s| ==> s[i] > 0.0
    requires forall i :: 0 <= i < |s| - 1 ==> s[i] <= s[i + 1]
    ensures forall i :: 0 <= i < |PctChanges(s)| ==> PctChanges(s)[i] >= 0.0
  {
    if |s| >= 2 {
      RisingHasNoLoss(s[1..]);
      assert (s[1] - s[0]) / s[0] >= 0.0;
    }
  }

  /** What a crossover compares the series with: another series (a
      `Stream`), a number, or anything else. */
  datatype Other = Series(values: seq<real>) | Level(level: real) | Incomparable

  /** `data[-1-lag]`. */
  function Back(s: seq<real>, lag: nat): real
    requires lag < |s|
  {
    s[|s| - 1 - lag]
  }

  /** `crossed_above` (lines 240-247): at `lag` the series is above the
      other and one sample earlier it was at or below it. */
  predicate CrossedAbove(data: seq<real>, other: Other, lag: nat): (r: bool)
    ensures r ==> lag + 1 < |data|
    ensures other.Incomparable? ==> !r
  {
    match other
    case Series(o) =>
      lag + 1 < |data| && lag + 1 < |o| &&
      Back(data, lag) > Back(o, lag) && Back(data, lag + 1) <= Back(o, lag + 1)
    case Level(v) =>
      lag + 1 < |data| && Back(data, lag) > v && Back(data, lag + 1) <= v
    case Incomparable => false
  }

  /** `crossed_below` (lines 249-256): at `lag` the series is below the
      other and one sample earlier it was at or above it. */
  predicate CrossedBelow(data: seq<real>, other: Other, lag: nat): (r: bool)
    ensures r ==> lag + 1 < |data|
    ensures other.Incomparable? ==> !r
  {
    match other
    case Series(o) =>
      lag + 1 < |data| && lag + 1 < |o| &&
      Back(data, lag) < Back(o, lag) && Back(data, lag + 1) >= Back(o, lag + 1)
    case Level(v) =>
      lag + 1 < |data| && Back(data, lag) < v && Back(data, lag + 1) >= v
    case Incomparable => false
  }

  /** `is_above` (lines 270-271): false once `lag` reaches past the
      oldest sample. */
  predicate IsAbove(data: seq<real>, value: real, lag: nat): (r: bool)
    ensures lag >= |data| ==> !r
  {
    lag < |data| && Back(data, lag) > value
  }

  /** `is_below` (lines 273-274). */
  predicate IsBelow(data: seq<real>, value: real, lag: nat): (r: bool)
    ensures lag >= |data| ==> !r
  {
    lag < |data| && Back(data, lag) < value
  }

  /** A series cannot cross above and below at the same lag, nor be both
      above and below a value; none of them looks past the oldest
      sample. */
  lemma CrossingsExclusive(data: seq<real>, other: Other, lag: nat, value: real)
    ensures !(CrossedAbove(data, other, lag) && CrossedBelow(data, other, lag))
    ensures !(IsAbove(data, value, lag) && IsBelow(data, value, lag))
    ensures lag + 1 >= |data| ==> !CrossedAbove(data, other, lag) && !CrossedBelow(data, other, lag)
    ensures lag >= |data| ==> !IsAbove(data, value, lag) && !IsBelow(data, value, lag)
  {
  }

  /** Crossing above a level is being above it now and not above it one
      sample earlier; crossing below likewise. */
  lemma CrossingIsChangeOfSide(data: seq<real>, v: real, lag: nat)
    ensures CrossedAbove(data, Level(v), lag) <==>
      lag + 1 < |data| && IsAbove(data, v, lag) && !IsAbove(data, v, lag + 1)
    ensures CrossedBelow(data, Level(v), lag) <==>
      lag + 1 < |data| && IsBelow(data, v, lag) && !IsBelow(data, v, lag + 1)
  {
  }

  /** The two series aligned at their newest samples, differenced:
      `Spread[-1-i] = a[-1-i] - b[-1-i]`. */
  function Spread(a: seq<real>, b: seq<real>): (d: seq<real>)
    ensures |d| == if |a| <= |b| then |a| else |b|
    ensures forall i :: 0 <= i < |d| ==> Back(d, i) == Back(a, i) - Back(b, i)
  {
    var n := if |a| <= |b| then |a| else |b|;
    seq(n, j requires 0 <= j < n => a[|a| - n + j] - b[|b| - n + j])
  }

  /** One series crosses another exactly when their spread crosses zero. */
  lemma CrossingIsSpreadCrossingZero(a: seq<real>, b: seq<real>, lag: nat)
    ensures CrossedAbove(a, Series(b), lag) <==> CrossedAbove(Spread(a, b), Level(0.0), lag)
    ensures CrossedBelow(a, Series(b), lag) <==> CrossedBelow(Spread(a, b), Level(0.0), lag)
  {
  }

  /** `has_crossed_above` (lines 258-262): tries `lag = 0 .. lookback` in
      turn; a negative `lookback` makes `range` empty and the answer
      False. */
  method HasCrossedAbove(data: seq<real>, other: Other, lookback: int) returns (r: bool)
    ensures r <==> exists lag: nat :: lag <= lookback && CrossedAbove(data, other, lag)
    ensures lookback < 0 ==> !r
  {
    var lag := 0;
    while lag < lookback + 1
      invariant 0 <= lag && (lookback >= 0 ==> lag <= lookback + 1)
      invariant forall l: nat :: l < lag ==> !CrossedAbove(data, other, l)
    {
      if CrossedAbove(data, other, lag) {
        return true;
      }
      lag := lag + 1;
    }
    return false;
  }

  /** `has_crossed_below` (lines 264-268). */
  method HasCrossedBelow(data: seq<real>, other: Other, lookback: int) returns (r: bool)
    ensures r <==> exists lag: nat :: lag <= lookback && CrossedBelow(data, other, lag)
    ensures lookback < 0 ==> !r
  {
    var lag := 0;
    while lag < lookback + 1
      invariant 0 <= lag && (lookback >= 0 ==> lag <= lookback + 1)
      invariant forall l: nat :: l < lag ==> !CrossedBelow(data, other, l)
    {
      if CrossedBelow(data, other, lag) {
        return true;
      }
      lag := lag + 1;
    }
    return false;
  }

  /** Looking back further than the series reaches finds nothing new. */
  lemma LookbackSaturates(data: seq<real>, other: Other, lookback: nat)
    requires lookback + 2 >= |data|
    ensures (exists lag: nat :: lag <= lookback && CrossedAbove(data, other, lag)) <==>
      (exists lag: nat :: lag + 2 <= |data| && CrossedAbove(data, other, lag))
  {
  }
}
