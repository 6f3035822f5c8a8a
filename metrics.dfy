/** The per-period flow metrics (program_10.py, CalcTqmean, CalcRBindex,
    Calc7Q, CalcExceed3TimesMedian, and the mean, peak and median columns).
    Every metric takes one period's daily discharges, absent entries
    included, drops the absent entries first and returns one value; a
    result that is not a number is `None`. */
module Metrics {
  import opened Optional
  import opened Numeric

  /** A lower bound on every present entry bounds every kept value. */
  lemma {:induction false} PresentAtLeast(q: seq<Option<real>>, lo: real)
    requires forall i :: 0 <= i < |q| && q[i].Some? ==> q[i].value >= lo
    ensures forall i :: 0 <= i < |Present(q)| ==> Present(q)[i] >= lo
  {
    if q != [] {
      assert forall i :: 1 <= i < |q| ==> q[1..][i - 1] == q[i];
      PresentAtLeast(q[1..], lo);
    }
  }

  // ---------------------------------------------------------------------------
  // Simple column statistics

  /** The mean of the present entries (a column mean that skips undefined
      entries); not a number when none is present. */
  function MeanSkipNa(q: seq<Option<real>>): Option<real>
  {
    var v := Present(q);
    if v == [] then None else Some(Mean(v))
  }

  /** The skipping mean is undefined exactly when no entry is present, and
      otherwise lies between the smallest and the largest present entry. */
  lemma MeanSkipNaBounds(q: seq<Option<real>>)
    ensures MeanSkipNa(q).None? <==> Present(q) == []
    ensures MeanSkipNa(q).Some? ==> MinOf(Present(q)) <= MeanSkipNa(q).value <= MaxOf(Present(q))
  {
    if Present(q) != [] {
      MeanBounds(Present(q));
    }
  }

  /** The largest present discharge. */
  function PeakFlow(q: seq<Option<real>>): (r: Option<real>)
    ensures r.None? <==> Present(q) == []
    ensures r.Some? ==> Some(r.value) in q
    ensures r.Some? ==> forall i :: 0 <= i < |q| && q[i].Some? ==> q[i].value <= r.value
  {
    var v := Present(q);
    if v == [] then None
    else
      PresentMembers(q);
      Some(MaxOf(v))
  }

  /** The median of the present discharges. */
  function MedianFlow(q: seq<Option<real>>): (r: Option<real>)
    ensures r.None? <==> Present(q) == []
    ensures r.Some? ==> MinOf(Present(q)) <= r.value <= MaxOf(Present(q))
  {
    var v := Present(q);
    if v == [] then None
    else
      MedianBounds(v);
      Some(Median(v))
  }

  /** The sum of squared deviations from `m`. */
  function SquaredDeviations(v: seq<real>, m: real): (r: real)
    ensures r >= 0.0
  {
    if v == [] then 0.0
    else
      var d := v[0] - m;
      assert d * d >= 0.0 by {
        if d < 0.0 { assert d * d == (-d) * (-d); }
      }
      d * d + SquaredDeviations(v[1..], m)
  }

  /** The sample (n - 1) variance of the present discharges: the square of
      the standard deviation in the Coeff Var column; not a number for fewer
      than two present values. */
  function SampleVariance(q: seq<Option<real>>): (r: Option<real>)
    ensures r.None? <==> |Present(q)| < 2
    ensures r.Some? ==> r.value >= 0.0
  {
    var v := Present(q);
    if |v| < 2 then None
    else Some(SquaredDeviations(v, Mean(v)) / (|v| - 1) as real)
  }

  /** Values that all equal `m` have no squared deviation from it. */
  lemma {:induction false} SquaredDeviationsOfSteady(v: seq<real>, m: real)
    requires forall i :: 0 <= i < |v| ==> v[i] == m
    ensures SquaredDeviations(v, m) == 0.0
  {
    if v != [] {
      assert forall i :: 0 <= i < |v[1..]| ==> v[1..][i] == v[i + 1];
      SquaredDeviationsOfSteady(v[1..], m);
    }
  }

  /** A steady flow has zero variance. */
  lemma SteadyFlowHasNoVariance(q: seq<Option<real>>)
    requires |Present(q)| >= 2 && Constant(Present(q))
    ensures SampleVariance(q) == Some(0.0)
  {
    var v := Present(q);
    MeanBetween(v, v[0], v[0]);
    SquaredDeviationsOfSteady(v, Mean(v));
  }

  // ---------------------------------------------------------------------------
  // Tqmean

  /** The fraction of present values strictly above the period mean. */
  function CalcTqmean(q: seq<Option<real>>): (r: Option<real>)
    ensures r.None? <==> Present(q) == []
    ensures r.Some? ==> 0.0 <= r.value < 1.0
  {
    var v := Present(q);
    if v == [] then None
    else
      var m := Mean(v);
      MeanBounds(v);
      var j :| 0 <= j < |v| && v[j] == MinOf(v);
      CountAboveBelowLength(v, m, j);
      FractionBounds(CountAbove(v, m), |v|);
      Some(CountAbove(v, m) as real / |v| as real)
  }

  // ---------------------------------------------------------------------------
  // Richards-Baker flashiness index

  /** Day-to-day differences, as a differencing of the series yields them:
      the first entry has no predecessor and is undefined. */
  function Diff(v: seq<real>): seq<Option<real>>
  {
    seq(|v|, i requires 0 <= i < |v| => if i == 0 then None else Some(v[i] - v[i - 1]))
  }

  function AbsAll(d: seq<Option<real>>): seq<Option<real>>
  {
    seq(|d|, i requires 0 <= i < |d| => if d[i].Some? then Some(Abs(d[i].value)) else None)
  }

  /** The total absolute day-to-day change over the total discharge; not a
      number when the total is zero (no present value, or values that sum
      to zero). */
  function CalcRBindex(q: seq<Option<real>>): (r: Option<real>)
    ensures r.None? <==> Sum(Present(q)) == 0.0
    ensures r.Some? ==> r.value == PathLength(Present(q)) / Sum(Present(q))
  {
    var v := Present(q);
    var pathLength := Sum(Present(AbsAll(Diff(v))));
    var total := Sum(v);
    RBNumeratorIsPathLength(v);
    if total == 0.0 then None else Some(pathLength / total)
  }

  /** Summing the absolute differences while skipping the undefined first
      one gives the path length: every value but the first contributes the
      step from its predecessor. */
  lemma RBNumeratorIsPathLength(v: seq<real>)
    ensures Sum(Present(AbsAll(Diff(v)))) == PathLength(v)
  {
    var d := AbsAll(Diff(v));
    if v != [] {
      PresentAfterPrefix(d, 1);
      AbsDiffsAt(v);
      assert Present(d) == AbsDiffs(v);
    }
    PathLengthIsSumOfSteps(v);
  }

  /** Every present discharge multiplied by `c`. */
  function ScaleSeries(q: seq<Option<real>>, c: real): seq<Option<real>>
  {
    if q == [] then []
    else [if q[0].Some? then Some(Times(c, q[0].value)) else None] + ScaleSeries(q[1..], c)
  }

  lemma {:induction false} PresentScale(q: seq<Option<real>>, c: real)
    ensures Present(ScaleSeries(q, c)) == Scale(Present(q), c)
  {
    if q != [] {
      var rest := ScaleSeries(q[1..], c);
      assert ScaleSeries(q, c)[1..] == rest;
      PresentScale(q[1..], c);
      if q[0].Some? {
        assert Present(q) == [q[0].value] + Present(q[1..]);
        assert ScaleSeries(q, c) == [Some(Times(c, q[0].value))] + rest;
        assert Present(ScaleSeries(q, c)) == [Times(c, q[0].value)] + Present(rest);
        ScaleCons(q[0].value, Present(q[1..]), c);
        var p := [q[0].value] + Present(q[1..]);
        assert Present(q) == p;
        assert Scale(p, c) == [Times(c, q[0].value)] + Scale(Present(q[1..]), c);
        assert Scale(Present(q), c) == Scale(p, c);
      } else {
        assert Present(q) == Present(q[1..]);
        assert Present(ScaleSeries(q, c)) == Present(rest);
      }
    }
  }

  lemma RatioZero(p: real, t: real)
    requires t != 0.0
    ensures p / t == 0.0 <==> p == 0.0
  {
    var r := p / t;
    assert r * t == p;
  }

  lemma RatioScale(c: real, p: real, t: real, p': real, t': real)
    requires c > 0.0 && t != 0.0 && p' == Times(c, p) && t' == Times(c, t)
    ensures t' != 0.0 && p' / t' == p / t
  {
    assert p' / t' * t' == p';
    assert (p / t) * t' == c * p;
  }

  /** The index is a ratio of two totals in the same unit: it does not
      change when every discharge is multiplied by a positive constant. */
  lemma RBIndexScaleInvariant(q: seq<Option<real>>, c: real)
    requires c > 0.0
    ensures CalcRBindex(ScaleSeries(q, c)) == CalcRBindex(q)
  {
    var v := Present(q);
    var w := Present(ScaleSeries(q, c));
    PresentScale(q, c);
    RBNumeratorIsPathLength(v);
    RBNumeratorIsPathLength(w);
    var p, t := PathLength(v), Sum(v);
    var p', t' := PathLength(w), Sum(w);
    PathLengthIsSumOfSteps(v);
    PathLengthIsSumOfSteps(Scale(v, c));
    AbsDiffsScale(v, c);
    SumScale(AbsDiffs(v), c);
    assert p' == Times(c, p);
    SumScale(v, c);
    assert t' == Times(c, t);
    if t != 0.0 {
      RatioScale(c, p, t, p', t');
    } else {
      assert t' == 0.0;
    }
  }

  /** For non-negative discharge the index lies in [0, 2]: each step is at
      most the sum of the two values it joins. */
  lemma RBIndexBounds(q: seq<Option<real>>)
    requires forall i :: 0 <= i < |q| && q[i].Some? ==> q[i].value >= 0.0
    ensures CalcRBindex(q).Some? ==> 0.0 <= CalcRBindex(q).value <= 2.0
  {
    var v := Present(q);
    PresentAtLeast(q, 0.0);
    RBNumeratorIsPathLength(v);
    PathLengthBound(v);
    SumAtLeast(v, 0.0);
    if Sum(v) != 0.0 {
      DivideBounds(PathLength(v), Sum(v), 0.0, 2.0);
    }
  }

  /** With a non-zero total, the index is zero exactly when the flow never
      changes. */
  lemma RBIndexZeroIffSteady(q: seq<Option<real>>)
    requires Sum(Present(q)) != 0.0
    ensures CalcRBindex(q) == Some(0.0) <==> Constant(Present(q))
  {
    var v := Present(q);
    RBNumeratorIsPathLength(v);
    PathLengthZero(v);
    RatioZero(PathLength(v), Sum(v));
  }

  // ---------------------------------------------------------------------------
  // Seven-day low flow

  const Week: nat := 7

  /** Trailing moving average of width `w`, undefined until `w` values have
      been seen. */
  function RollingMean(v: seq<real>, w: nat): (r: seq<Option<real>>)
    requires w > 0
    ensures |r| == |v|
    ensures forall i :: 0 <= i < |v| ==> (r[i].None? <==> i + 1 < w)
  {
    seq(|v|, i requires 0 <= i < |v| =>
      if i + 1 < w then None else Some(Sum(v[i + 1 - w..i + 1]) / w as real))
  }

  /** The mean of the `Week` values starting at position `i`. */
  function WindowMean(v: seq<real>, i: nat): real
    requires i + Week <= |v|
  {
    Sum(v[i..i + Week]) / Week as real
  }

  /** The lowest seven-value moving average of the present discharges; not a
      number when fewer than seven values are present. */
  function Calc7Q(q: seq<Option<real>>): (r: Option<real>)
    ensures r.None? <==> |Present(q)| < Week
  {
    var means := Present(RollingMean(Present(q), Week));
    RollingMeansAreWindows(Present(q));
    if means == [] then None else Some(MinOf(means))
  }

  /** The defined moving averages are exactly the window means, in order. */
  lemma RollingMeansAreWindows(v: seq<real>)
    ensures |Present(RollingMean(v, Week))| == if |v| < Week then 0 else |v| - Week + 1
    ensures forall i :: 0 <= i < |Present(RollingMean(v, Week))| ==>
      i + Week <= |v| && Present(RollingMean(v, Week))[i] == WindowMean(v, i)
  {
    var r := RollingMean(v, Week);
    if |v| < Week {
      PresentAfterPrefix(r, |r|);
    } else {
      PresentAfterPrefix(r, Week - 1);
      forall i | 0 <= i < |v| - Week + 1
        ensures Present(r)[i] == WindowMean(v, i)
      {
        assert r[Week - 1 + i].value == Sum(v[i..i + Week]) / Week as real;
      }
    }
  }

  /** 7Q is the mean of some window of seven consecutive present values, and
      no such window has a lower mean. */
  lemma SevenQIsLowestWindow(q: seq<Option<real>>)
    requires |Present(q)| >= Week
    ensures Calc7Q(q).Some?
    ensures exists i :: 0 <= i <= |Present(q)| - Week && Calc7Q(q).value == WindowMean(Present(q), i)
    ensures forall i :: 0 <= i <= |Present(q)| - Week ==> Calc7Q(q).value <= WindowMean(Present(q), i)
  {
    var v := Present(q);
    var means := Present(RollingMean(v, Week));
    RollingMeansAreWindows(v);
    var m := MinOf(means);
    var k :| 0 <= k < |means| && means[k] == m;
    assert m == WindowMean(v, k);
    forall i | 0 <= i <= |v| - Week ensures m <= WindowMean(v, i) {
      assert means[i] == WindowMean(v, i);
    }
  }

  /** 7Q lies between the lowest and the highest present discharge; in
      particular it never exceeds the peak flow. */
  lemma SevenQBounds(q: seq<Option<real>>)
    requires |Present(q)| >= Week
    ensures Calc7Q(q).Some? && MinOf(Present(q)) <= Calc7Q(q).value <= MaxOf(Present(q))
  {
    var v := Present(q);
    SevenQIsLowestWindow(q);
    var i :| 0 <= i <= |v| - Week && Calc7Q(q).value == WindowMean(v, i);
    var w := v[i..i + Week];
    assert Calc7Q(q).value == Mean(w) by {
      assert |w| == Week;
    }
    forall k | 0 <= k < |w| ensures MinOf(v) <= w[k] <= MaxOf(v) {
      assert w[k] == v[i + k];
    }
    MeanBetween(w, MinOf(v), MaxOf(v));
  }

  // ---------------------------------------------------------------------------
  // Days above three times the median

  /** The number of present values strictly greater than three times the
      median of the present values. With no value present the median is not
      a number, no comparison holds, and the count is zero. */
  function CalcExceed3TimesMedian(q: seq<Option<real>>): (r: nat)
    ensures r <= |Present(q)|
  {
    var v := Present(q);
    if v == [] then 0 else CountAbove(v, 3.0 * Median(v))
  }

  /** For non-negative discharge at most half of the present values exceed
      three times the median (they all exceed the median itself). */
  lemma Exceed3TimesMedianAtMostHalf(q: seq<Option<real>>)
    requires forall i :: 0 <= i < |q| && q[i].Some? ==> q[i].value >= 0.0
    ensures CalcExceed3TimesMedian(q) <= |Present(q)| / 2
  {
    var v := Present(q);
    if v != [] {
      var m := Median(v);
      assert m >= 0.0 by {
        PresentAtLeast(q, 0.0);
        MedianBounds(v);
      }
      assert CountAbove(v, 3.0 * m) <= |v| / 2 by {
        CountAboveAntitone(v, m, 3.0 * m);
        AtMostHalfAboveMedian(v);
      }
    }
  }

  // ---------------------------------------------------------------------------
  // Absent entries

  /** Absent entries take no part in any metric: two periods with the same
      present values, in the same order, have the same metrics. */
  lemma RatiosDependOnPresentOnly(p: seq<Option<real>>, q: seq<Option<real>>)
    requires Present(p) == Present(q)
    ensures CalcTqmean(p) == CalcTqmean(q)
    ensures CalcRBindex(p) == CalcRBindex(q)
  {
  }

  lemma LowAndHighFlowDependOnPresentOnly(p: seq<Option<real>>, q: seq<Option<real>>)
    requires Present(p) == Present(q)
    ensures Calc7Q(p) == Calc7Q(q)
    ensures CalcExceed3TimesMedian(p) == CalcExceed3TimesMedian(q)
  {
  }

  /** In particular each metric of a period equals the metric of its present
      values alone. */
  lemma MetricsIgnoreAbsent(q: seq<Option<real>>)
    ensures CalcTqmean(AllSome(Present(q))) == CalcTqmean(q)
    ensures CalcRBindex(AllSome(Present(q))) == CalcRBindex(q)
    ensures Calc7Q(AllSome(Present(q))) == Calc7Q(q)
    ensures CalcExceed3TimesMedian(AllSome(Present(q))) == CalcExceed3TimesMedian(q)
  {
    PresentAllSome(Present(q));
    RatiosDependOnPresentOnly(AllSome(Present(q)), q);
    LowAndHighFlowDependOnPresentOnly(AllSome(Present(q)), q);
  }
}
