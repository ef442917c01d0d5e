/** The aggregate attributes of divebomb/DeepDive.py (constructor lines 28-42
    and the getters of lines 80-106), computed from a frame sorted by time.
    pandas' `diff()` gives NaN in row 0 and every filter and aggregate below
    skips it, so the columns here start at row 1: entry k describes the step
    from row k to row k + 1. */
module DeepDive {
  import opened Floats
  import opened Series

  /** x.diff() without its leading NaN: entry k is xs[k + 1] - xs[k]. */
  function Diffs(xs: seq<real>): (r: seq<real>)
    ensures |r| == if |xs| == 0 then 0 else |xs| - 1
    ensures forall k :: 0 <= k < |r| ==> r[k] == xs[k + 1] - xs[k]
  {
    if |xs| < 2 then []
    else
      var rest := Diffs(xs[1..]);
      assert forall k :: 0 <= k < |rest| ==> rest[k] == xs[k + 2] - xs[k + 1];
      [xs[1] - xs[0]] + rest
  }

  /** depth.diff() / time.diff() without its leading NaN: entry k is the
      velocity of the step from row k to row k + 1. */
  function Velocities(time: seq<real>, depth: seq<real>): (r: seq<real>)
    requires |time| == |depth| && StrictlyIncreasing(time)
    ensures |r| == |Diffs(depth)|
  {
    if |time| < 2 then []
    else [(depth[1] - depth[0]) / (time[1] - time[0])] + Velocities(time[1..], depth[1..])
  }

  /** The entries above zero, in order (the boolean filter `column > 0`). */
  function Positives(xs: seq<real>): (r: seq<real>)
    ensures |r| <= |xs|
  {
    if |xs| == 0 then [] else (if xs[0] > 0.0 then [xs[0]] else []) + Positives(xs[1..])
  }

  /** The entries below zero, in order (the boolean filter `column < 0`). */
  function Negatives(xs: seq<real>): (r: seq<real>)
    ensures |r| <= |xs|
  {
    if |xs| == 0 then [] else (if xs[0] < 0.0 then [xs[0]] else []) + Negatives(xs[1..])
  }

  /** np.absolute of every entry. */
  function Magnitudes(xs: seq<real>): (r: seq<real>)
    ensures |r| == |xs|
  {
    if |xs| == 0 then [] else [RealAbs(xs[0])] + Magnitudes(xs[1..])
  }

  function RealAbs(x: real): (r: real)
    ensures r >= 0.0 && (r == x || r == -x)
  {
    if x < 0.0 then -x else x
  }

  /** column.mean(): NaN when the column holds no number. */
  function MeanOrNaN(s: seq<real>): (m: Float)
    ensures m.Num? <==> |s| > 0
    ensures m.NaN? <==> |s| == 0
  {
    if |s| == 0 then NaN else Num(Mean(s))
  }

  /** get_descent_vertical_distance (lines 80-85). */
  function DescentVerticalDistance(depth: seq<real>): real
  {
    RealAbs(Sum(Positives(Diffs(depth))))
  }

  /** get_ascent_vertical_distance (lines 87-92). */
  function AscentVerticalDistance(depth: seq<real>): real
  {
    RealAbs(Sum(Negatives(Diffs(depth))))
  }

  /** get_average_descent_velocity (lines 101-106). */
  function AverageDescentVelocity(time: seq<real>, depth: seq<real>): Float
    requires |time| == |depth| && StrictlyIncreasing(time)
  {
    Abs(MeanOrNaN(Positives(Velocities(time, depth))))
  }

  /** get_average_ascent_velocity (lines 94-99). */
  function AverageAscentVelocity(time: seq<real>, depth: seq<real>): Float
    requires |time| == |depth| && StrictlyIncreasing(time)
  {
    Abs(MeanOrNaN(Negatives(Velocities(time, depth))))
  }

  /** np.absolute(depth.diff() / time.diff()).mean() (line 34). */
  function AverageVerticalVelocity(time: seq<real>, depth: seq<real>): Float
    requires |time| == |depth| && StrictlyIncreasing(time)
  {
    MeanOrNaN(Magnitudes(Velocities(time, depth)))
  }

  /** Line 38 as written: the rows whose velocity is positive, the same filter
      as the descent count of line 37. */
  function AscentTransitionsAsWritten(time: seq<real>, depth: seq<real>): nat
    requires |time| == |depth| && StrictlyIncreasing(time)
  {
    |Positives(Velocities(time, depth))|
  }

  /** Line 38 as evidently intended: the rows whose velocity is negative. */
  function AscentTransitions(time: seq<real>, depth: seq<real>): nat
    requires |time| == |depth| && StrictlyIncreasing(time)
  {
    |Negatives(Velocities(time, depth))|
  }

  /** The attributes lines 28-42 set, except depth_variance and peaks. */
  datatype Attributes = Attributes(
    sufficient: bool,
    maxDepth: Float,
    minDepth: Float,
    diveStart: Float,
    diveEnd: Float,
    totalDuration: Float,
    averageVerticalVelocity: Float,
    averageDescentVelocity: Float,
    averageAscentVelocity: Float,
    numberOfDescentTransitions: nat,
    numberOfAscentTransitions: nat,
    totalDescentDistanceTraveled: real,
    totalAscentDistanceTraveled: real,
    overallChangeInDepth: real)

  function DeepDiveAttributes(time: seq<real>, depth: seq<real>): Attributes
    requires WellFormed(time, depth)
  {
    Attributes(
      true,
      ColumnMax(depth),
      ColumnMin(depth),
      ColumnMin(time),
      ColumnMax(time),
      Sub(ColumnMax(time), ColumnMin(time)),
      AverageVerticalVelocity(time, depth),
      AverageDescentVelocity(time, depth),
      AverageAscentVelocity(time, depth),
      |Positives(Velocities(time, depth))|,
      AscentTransitionsAsWritten(time, depth),
      DescentVerticalDistance(depth),
      AscentVerticalDistance(depth),
      Sum(Diffs(depth)))
  }

  /** The attributes with line 38 as evidently intended: the ascent count is
      the number of negative velocities. */
  function CorrectedAttributes(time: seq<real>, depth: seq<real>): Attributes
    requires WellFormed(time, depth)
  {
    DeepDiveAttributes(time, depth).(numberOfAscentTransitions := AscentTransitions(time, depth))
  }

  // ---------------------------------------------------------------------------
  // Folds over the step columns

  /** The steps of a series add up to its last entry less its first. */
  lemma {:induction false} DiffsTelescope(xs: seq<real>)
    requires |xs| > 0
    ensures Sum(Diffs(xs)) == xs[|xs| - 1] - xs[0]
  {
    if |xs| >= 2 {
      DiffsTelescope(xs[1..]);
      assert Diffs(xs) == [xs[1] - xs[0]] + Diffs(xs[1..]);
    }
  }

  /** Every entry lands in exactly one of the positive part, the negative part
      or the zeros, so the sum splits into the two signed parts. */
  lemma {:induction false} SignSplit(xs: seq<real>)
    ensures Sum(xs) == Sum(Positives(xs)) + Sum(Negatives(xs))
    ensures Sum(Positives(xs)) >= 0.0 && Sum(Negatives(xs)) <= 0.0
    ensures |Positives(xs)| + |Negatives(xs)| <= |xs|
  {
    if |xs| > 0 {
      SignSplit(xs[1..]);
      var p := if xs[0] > 0.0 then [xs[0]] else [];
      var q := if xs[0] < 0.0 then [xs[0]] else [];
      SumAppend(p, Positives(xs[1..]));
      SumAppend(q, Negatives(xs[1..]));
    }
  }

  /** A non-empty run of positive entries has a positive mean. */
  lemma {:induction false} PositiveSum(xs: seq<real>)
    requires forall k :: 0 <= k < |xs| ==> xs[k] > 0.0
    ensures |xs| > 0 ==> Sum(xs) > 0.0
  {
    if |xs| > 0 {
      PositiveSum(xs[1..]);
    }
  }

  lemma {:induction false} NegativeSum(xs: seq<real>)
    requires forall k :: 0 <= k < |xs| ==> xs[k] < 0.0
    ensures |xs| > 0 ==> Sum(xs) < 0.0
  {
    if |xs| > 0 {
      NegativeSum(xs[1..]);
    }
  }

  lemma {:induction false} NonNegativeSum(xs: seq<real>)
    requires forall k :: 0 <= k < |xs| ==> xs[k] >= 0.0
    ensures Sum(xs) >= 0.0
  {
    if |xs| > 0 {
      NonNegativeSum(xs[1..]);
    }
  }

  lemma {:induction false} PositivesAbove(xs: seq<real>)
    ensures forall k :: 0 <= k < |Positives(xs)| ==> Positives(xs)[k] > 0.0
  {
    if |xs| > 0 {
      PositivesAbove(xs[1..]);
      var p := if xs[0] > 0.0 then [xs[0]] else [];
      assert Positives(xs) == p + Positives(xs[1..]);
    }
  }

  lemma {:induction false} NegativesBelow(xs: seq<real>)
    ensures forall k :: 0 <= k < |Negatives(xs)| ==> Negatives(xs)[k] < 0.0
  {
    if |xs| > 0 {
      NegativesBelow(xs[1..]);
      var q := if xs[0] < 0.0 then [xs[0]] else [];
      assert Negatives(xs) == q + Negatives(xs[1..]);
    }
  }

  lemma {:induction false} MagnitudesNonNegative(xs: seq<real>)
    ensures forall k :: 0 <= k < |xs| ==> Magnitudes(xs)[k] >= 0.0
  {
    if |xs| > 0 {
      MagnitudesNonNegative(xs[1..]);
      assert Magnitudes(xs) == [RealAbs(xs[0])] + Magnitudes(xs[1..]);
    }
  }

  /** Two columns whose entries have the same signs row by row have positive
      and negative parts of the same lengths. */
  lemma {:induction false} SameSigns(xs: seq<real>, ys: seq<real>)
    requires |xs| == |ys|
    requires forall k :: 0 <= k < |xs| ==> (xs[k] > 0.0 <==> ys[k] > 0.0) && (xs[k] < 0.0 <==> ys[k] < 0.0)
    ensures |Positives(xs)| == |Positives(ys)| && |Negatives(xs)| == |Negatives(ys)|
  {
    if |xs| > 0 {
      assert forall k :: 0 <= k < |xs[1..]| ==> xs[1..][k] == xs[k + 1] && ys[1..][k] == ys[k + 1];
      SameSigns(xs[1..], ys[1..]);
    }
  }

  /** A step over a positive time difference has the sign of its depth change. */
  lemma QuotientSign(x: real, y: real)
    requires y > 0.0
    ensures x / y > 0.0 <==> x > 0.0
    ensures x / y < 0.0 <==> x < 0.0
  {
    assert x / y * y == x;
  }

  // ---------------------------------------------------------------------------
  // What the attributes satisfy

  /** The dive starts at the first sample and ends at the last, so the
      duration is their difference and is non-negative; an empty frame gives
      NaN for all three. */
  lemma TimeSpan(time: seq<real>, depth: seq<real>)
    requires WellFormed(time, depth)
    ensures var a := DeepDiveAttributes(time, depth);
      |time| > 0 ==>
        && a.diveStart == Num(time[0]) && a.diveEnd == Num(time[|time| - 1])
        && a.totalDuration == Num(time[|time| - 1] - time[0]) && a.totalDuration.v >= 0.0
    ensures var a := DeepDiveAttributes(time, depth);
      |time| == 0 ==> a.diveStart.NaN? && a.diveEnd.NaN? && a.totalDuration.NaN?
  {
    if |time| > 0 {
      SortedExtremes(time);
      assert Min(time) <= time[|time| - 1];
    }
  }

  /** The shallowest depth is at most the deepest; both are NaN on an empty
      frame. */
  lemma DepthExtrema(time: seq<real>, depth: seq<real>)
    requires WellFormed(time, depth)
    ensures var a := DeepDiveAttributes(time, depth);
      (a.minDepth.Num? <==> |depth| > 0) && (a.maxDepth.Num? <==> |depth| > 0)
      && (|depth| > 0 ==> a.minDepth.v <= depth[0] <= a.maxDepth.v)
  {
  }

  /** The descent distance is the sum of the depth increases; np.absolute
      leaves it unchanged. */
  lemma DescentDistance(depth: seq<real>)
    ensures DescentVerticalDistance(depth) == Sum(Positives(Diffs(depth))) >= 0.0
  {
    SignSplit(Diffs(depth));
  }

  /** The ascent distance is the size of the sum of the depth decreases. */
  lemma AscentDistance(depth: seq<real>)
    ensures AscentVerticalDistance(depth) == -Sum(Negatives(Diffs(depth))) >= 0.0
  {
    SignSplit(Diffs(depth));
  }

  /** The overall change in depth telescopes to last depth less first depth,
      which is the distance descended less the distance ascended. */
  lemma OverallChange(time: seq<real>, depth: seq<real>)
    requires WellFormed(time, depth) && |depth| > 0
    ensures var a := DeepDiveAttributes(time, depth);
      && a.overallChangeInDepth == depth[|depth| - 1] - depth[0]
      && a.overallChangeInDepth == a.totalDescentDistanceTraveled - a.totalAscentDistanceTraveled
  {
    DiffsTelescope(depth);
    DescentDistance(depth);
    AscentDistance(depth);
    SignSplit(Diffs(depth));
  }

  /** Over strictly increasing times each velocity has the sign of its depth
      step. */
  lemma {:induction false} VelocitySigns(time: seq<real>, depth: seq<real>)
    requires WellFormed(time, depth)
    ensures var v := Velocities(time, depth);
      forall k :: 0 <= k < |v| ==> (v[k] > 0.0 <==> depth[k + 1] > depth[k]) && (v[k] < 0.0 <==> depth[k + 1] < depth[k])
  {
    if |time| >= 2 {
      VelocitySigns(time[1..], depth[1..]);
      QuotientSign(depth[1] - depth[0], time[1] - time[0]);
      var v := Velocities(time, depth);
      var rest := Velocities(time[1..], depth[1..]);
      assert v == [(depth[1] - depth[0]) / (time[1] - time[0])] + rest;
      forall k | 1 <= k < |v|
        ensures (v[k] > 0.0 <==> depth[k + 1] > depth[k]) && (v[k] < 0.0 <==> depth[k + 1] < depth[k])
      {
        assert v[k] == rest[k - 1] && depth[1..][k - 1] == depth[k] && depth[1..][k] == depth[k + 1];
      }
    }
  }

  /** Each velocity is its depth step over its time step, the time step being
      positive in a frame sorted by strictly increasing time. */
  lemma {:induction false} VelocityValues(time: seq<real>, depth: seq<real>)
    requires WellFormed(time, depth)
    ensures forall k :: 0 <= k < |Velocities(time, depth)| ==>
      Diffs(time)[k] > 0.0 && Velocities(time, depth)[k] == Diffs(depth)[k] / Diffs(time)[k]
  {
    if |time| >= 2 {
      VelocityValues(time[1..], depth[1..]);
      var v, dt, dd := Velocities(time, depth), Diffs(time), Diffs(depth);
      var rest := Velocities(time[1..], depth[1..]);
      assert v == [(depth[1] - depth[0]) / (time[1] - time[0])] + rest;
      forall k | 0 <= k < |v|
        ensures dt[k] > 0.0 && v[k] == dd[k] / dt[k]
      {
        if k == 0 {
          assert time[0] < time[1];
          assert dt[0] == time[1] - time[0] && dd[0] == depth[1] - depth[0];
        } else {
          var rt, rd := Diffs(time[1..]), Diffs(depth[1..]);
          assert rt[k - 1] == time[1..][k] - time[1..][k - 1] == dt[k];
          assert rd[k - 1] == depth[1..][k] - depth[1..][k - 1] == dd[k];
          assert rt[k - 1] > 0.0 && rest[k - 1] == rd[k - 1] / rt[k - 1];
          assert v[k] == rest[k - 1];
        }
      }
    }
  }

  /** The descent count is the number of steps that go deeper. As written, the
      ascent count of line 38 is that same number; as corrected, it is the
      number of steps that go shallower. */
  lemma TransitionsAreSteps(time: seq<real>, depth: seq<real>)
    requires WellFormed(time, depth)
    ensures var a := DeepDiveAttributes(time, depth);
      && a.numberOfDescentTransitions == |Positives(Diffs(depth))|
      && a.numberOfAscentTransitions == |Positives(Diffs(depth))|
    ensures CorrectedAttributes(time, depth).numberOfAscentTransitions == |Negatives(Diffs(depth))|
  {
    VelocitySigns(time, depth);
    var v, d := Velocities(time, depth), Diffs(depth);
    forall k | 0 <= k < |v|
      ensures (v[k] > 0.0 <==> d[k] > 0.0) && (v[k] < 0.0 <==> d[k] < 0.0)
    {
      assert d[k] == depth[k + 1] - depth[k];
    }
    SameSigns(v, d);
  }

  /** Each count is at most the n - 1 steps of an n-row frame. Only with the
      corrected ascent count is every step counted at most once, so that the
      two counts together are at most n - 1. */
  lemma TransitionBounds(time: seq<real>, depth: seq<real>)
    requires WellFormed(time, depth) && |time| > 0
    ensures var a := DeepDiveAttributes(time, depth);
      a.numberOfDescentTransitions <= |time| - 1 && a.numberOfAscentTransitions <= |time| - 1
    ensures var c := CorrectedAttributes(time, depth);
      c.numberOfDescentTransitions + c.numberOfAscentTransitions <= |time| - 1
  {
    SignSplit(Velocities(time, depth));
  }

  /** The descent average is the mean of the positive velocities, positive when
      there is one and NaN when there is none, np.absolute changing nothing. */
  lemma DescentAverage(time: seq<real>, depth: seq<real>)
    requires WellFormed(time, depth)
    ensures var ps := Positives(Velocities(time, depth));
      && (|ps| == 0 ==> AverageDescentVelocity(time, depth).NaN?)
      && (|ps| > 0 ==> AverageDescentVelocity(time, depth) == Num(Mean(ps)) && Mean(ps) > 0.0)
  {
    var ps := Positives(Velocities(time, depth));
    PositivesAbove(Velocities(time, depth));
    PositiveSum(ps);
  }

  /** The ascent average is the size of the mean of the negative velocities. */
  lemma AscentAverage(time: seq<real>, depth: seq<real>)
    requires WellFormed(time, depth)
    ensures var ns := Negatives(Velocities(time, depth));
      && (|ns| == 0 ==> AverageAscentVelocity(time, depth).NaN?)
      && (|ns| > 0 ==> AverageAscentVelocity(time, depth) == Num(-Mean(ns)) && -Mean(ns) > 0.0)
  {
    var ns := Negatives(Velocities(time, depth));
    NegativesBelow(Velocities(time, depth));
    NegativeSum(ns);
  }

  /** The vertical average is the mean speed over the n - 1 steps: non-negative,
      and NaN for a frame of fewer than two rows. */
  lemma VerticalAverage(time: seq<real>, depth: seq<real>)
    requires WellFormed(time, depth)
    ensures var a := AverageVerticalVelocity(time, depth);
      && (a.NaN? <==> |time| < 2)
      && (a.Num? ==> a.v >= 0.0)
  {
    var ms := Magnitudes(Velocities(time, depth));
    MagnitudesNonNegative(Velocities(time, depth));
    NonNegativeSum(ms);
  }

  // ---------------------------------------------------------------------------
  // Line 38 as written

  /** As written, the ascent count is the descent count on every frame. */
  lemma AscentCountCopiesDescent(time: seq<real>, depth: seq<real>)
    requires WellFormed(time, depth)
    ensures DeepDiveAttributes(time, depth).numberOfAscentTransitions == DeepDiveAttributes(time, depth).numberOfDescentTransitions
  {
  }

  /** A dive that only goes deeper: two steps down, no step up, yet line 38
      reports two ascent transitions. */
  lemma AscentCountCounterexample()
    ensures WellFormed([0.0, 1.0, 2.0], [0.0, 10.0, 20.0])
    ensures AscentTransitionsAsWritten([0.0, 1.0, 2.0], [0.0, 10.0, 20.0]) == 2
    ensures AscentTransitions([0.0, 1.0, 2.0], [0.0, 10.0, 20.0]) == 0
    ensures DeepDiveAttributes([0.0, 1.0, 2.0], [0.0, 10.0, 20.0]).numberOfAscentTransitions == 2
    ensures CorrectedAttributes([0.0, 1.0, 2.0], [0.0, 10.0, 20.0]).numberOfAscentTransitions == 0
  {
    var time, depth := [0.0, 1.0, 2.0], [0.0, 10.0, 20.0];
    assert time[1..] == [1.0, 2.0] && time[1..][1..] == [2.0];
    assert depth[1..] == [10.0, 20.0] && depth[1..][1..] == [20.0];
    assert Velocities(time, depth) == [10.0, 10.0];
    assert Positives([10.0, 10.0]) == [10.0, 10.0] by {
      assert [10.0, 10.0][1..] == [10.0];
    }
    assert Negatives([10.0, 10.0]) == [] by {
      assert [10.0, 10.0][1..] == [10.0];
    }
  }
}
