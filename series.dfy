/** Helpers over a time-ordered series of samples: order predicates, the
    aggregates numpy and pandas compute over a column, and boolean-mask
    selection. */
module Series {
  import opened Floats

  /** Times strictly increase along the series: each is below the next. */
  predicate StrictlyIncreasing(t: seq<real>)
  {
    |t| < 2 || (t[0] < t[1] && StrictlyIncreasing(t[1..]))
  }

  /** Of a strictly increasing series, every entry is below every later one. */
  lemma {:induction false} IncreasingPairs(t: seq<real>)
    requires StrictlyIncreasing(t)
    ensures forall i, j :: 0 <= i < j < |t| ==> t[i] < t[j]
  {
    if |t| >= 2 {
      var rest := t[1..];
      IncreasingPairs(rest);
      forall i, j | 0 <= i < j < |t| ensures t[i] < t[j] {
        if i == 0 {
          if j > 1 { assert rest[0] < rest[j - 1]; }
        } else {
          assert rest[i - 1] < rest[j - 1];
        }
      }
    }
  }

  /** Row labels strictly increase along a list of rows. */
  predicate IncreasingRows(rows: seq<nat>)
  {
    forall i, j :: 0 <= i < j < |rows| ==> rows[i] < rows[j]
  }

  /** A depth record: one time and one depth per row, times strictly increasing,
      the frame's index equal to the row position. */
  predicate WellFormed(time: seq<real>, depth: seq<real>)
  {
    |time| == |depth| && StrictlyIncreasing(time)
  }

  function Max(s: seq<real>): (m: real)
    requires |s| > 0
    ensures m in s
    ensures forall k :: 0 <= k < |s| ==> s[k] <= m
  {
    if |s| == 1 then s[0]
    else
      var rest := Max(s[1..]);
      assert forall k :: 1 <= k < |s| ==> s[k] == s[1..][k - 1];
      if s[0] >= rest then s[0] else rest
  }

  function Min(s: seq<real>): (m: real)
    requires |s| > 0
    ensures m in s
    ensures forall k :: 0 <= k < |s| ==> m <= s[k]
  {
    if |s| == 1 then s[0]
    else
      var rest := Min(s[1..]);
      assert forall k :: 1 <= k < |s| ==> s[k] == s[1..][k - 1];
      if s[0] <= rest then s[0] else rest
  }

  /** column.max(): NaN for an empty column. */
  function ColumnMax(s: seq<real>): (m: Float)
    ensures m.Num? <==> |s| > 0
    ensures m.Num? ==> forall k :: 0 <= k < |s| ==> s[k] <= m.v
  {
    if |s| == 0 then NaN else Num(Max(s))
  }

  /** column.min(): NaN for an empty column. */
  function ColumnMin(s: seq<real>): (m: Float)
    ensures m.Num? <==> |s| > 0
    ensures m.Num? ==> forall k :: 0 <= k < |s| ==> m.v <= s[k]
  {
    if |s| == 0 then NaN else Num(Min(s))
  }

  /** Of a strictly increasing series, the minimum is the first and the maximum the last entry. */
  lemma SortedExtremes(t: seq<real>)
    requires |t| > 0 && StrictlyIncreasing(t)
    ensures Min(t) == t[0] && Max(t) == t[|t| - 1]
  {
    IncreasingPairs(t);
    var lo, hi := Min(t), Max(t);
    var i :| 0 <= i < |t| && t[i] == lo;
    var j :| 0 <= j < |t| && t[j] == hi;
    assert lo <= t[0] && t[|t| - 1] <= hi;
  }

  function Sum(s: seq<real>): real
  {
    if |s| == 0 then 0.0 else s[0] + Sum(s[1..])
  }

  lemma SumAppend(a: seq<real>, b: seq<real>)
    ensures Sum(a + b) == Sum(a) + Sum(b)
  {
    if |a| > 0 {
      assert (a + b)[0] == a[0] && (a + b)[1..] == a[1..] + b;
      SumAppend(a[1..], b);
    } else {
      assert a + b == b;
    }
  }

  function Mean(s: seq<real>): real
    requires |s| > 0
  {
    Sum(s) / |s| as real
  }

  function SumSquaredDeviations(s: seq<real>, mu: real): (r: real)
    ensures r >= 0.0
  {
    if |s| == 0 then 0.0
    else
      var dev := s[0] - mu;
      assert dev * dev >= 0.0;
      dev * dev + SumSquaredDeviations(s[1..], mu)
  }

  /** The population variance (numpy's default, ddof = 0). np.std is its square root;
      since the square root is strictly increasing on non-negative reals, every
      comparison between two standard deviations, or between one and a
      non-negative constant c, has the same outcome on the variances (against c * c). */
  function PopVariance(s: seq<real>): (r: real)
    requires |s| > 0
    ensures r >= 0.0
    ensures |s| == 1 ==> r == 0.0
  {
    if |s| == 1 then
      assert s[1..] == [];
      assert Sum(s) == s[0];
      assert Mean(s) == s[0];
      assert SumSquaredDeviations(s, s[0]) == (s[0] - s[0]) * (s[0] - s[0]) + SumSquaredDeviations(s[1..], s[0]);
      SumSquaredDeviations(s, Mean(s)) / |s| as real
    else SumSquaredDeviations(s, Mean(s)) / |s| as real
  }

  /** The entries of xs whose mask entry is true, in their original order
      (pandas boolean indexing, frame[mask]). */
  function Select<T>(xs: seq<T>, keep: seq<bool>): (r: seq<T>)
    requires |xs| == |keep|
    ensures |r| <= |xs|
  {
    if |xs| == 0 then [] else (if keep[0] then [xs[0]] else []) + Select(xs[1..], keep[1..])
  }

  /** An element is selected exactly when some row holding it is kept. */
  lemma {:induction false} SelectMembership<T>(xs: seq<T>, keep: seq<bool>, y: T)
    requires |xs| == |keep|
    ensures y in Select(xs, keep) <==> exists j :: 0 <= j < |xs| && keep[j] && xs[j] == y
  {
    if |xs| > 0 {
      SelectMembership(xs[1..], keep[1..], y);
      if exists j :: 0 <= j < |xs| && keep[j] && xs[j] == y {
        var j :| 0 <= j < |xs| && keep[j] && xs[j] == y;
        if j > 0 {
          assert keep[1..][j - 1] && xs[1..][j - 1] == y;
        }
      }
      if exists j :: 0 <= j < |xs[1..]| && keep[1..][j] && xs[1..][j] == y {
        var j :| 0 <= j < |xs[1..]| && keep[1..][j] && xs[1..][j] == y;
        assert keep[j + 1] && xs[j + 1] == y;
      }
    }
  }

  /** Selecting from increasing rows keeps them increasing. */
  lemma {:induction false} SelectIncreasing(rows: seq<nat>, keep: seq<bool>)
    requires |rows| == |keep| && IncreasingRows(rows)
    ensures IncreasingRows(Select(rows, keep))
  {
    if |rows| > 0 {
      var rest := Select(rows[1..], keep[1..]);
      SelectIncreasing(rows[1..], keep[1..]);
      if keep[0] {
        forall y | y in rest ensures rows[0] < y {
          SelectMembership(rows[1..], keep[1..], y);
          var j :| 0 <= j < |rows[1..]| && keep[1..][j] && rows[1..][j] == y;
          assert rows[j + 1] == y;
        }
        var r := [rows[0]] + rest;
        forall i, j | 0 <= i < j < |r| ensures r[i] < r[j] {
          if i == 0 { assert r[j] == rest[j - 1] && rest[j - 1] in rest; }
          else { assert r[i] == rest[i - 1] && r[j] == rest[j - 1]; }
        }
      }
    }
  }

  /** A mask that keeps exactly the rows lo .. hi - 1 selects that slice. */
  lemma {:induction false} SelectRange<T>(xs: seq<T>, keep: seq<bool>, lo: nat, hi: nat)
    requires |xs| == |keep| && lo <= hi <= |xs|
    requires forall k :: 0 <= k < |xs| ==> (keep[k] <==> lo <= k < hi)
    ensures Select(xs, keep) == xs[lo..hi]
  {
    if |xs| > 0 {
      var lo', hi' := if lo == 0 then 0 else lo - 1, if hi == 0 then 0 else hi - 1;
      if lo == 0 && hi > 0 {
        SelectRange(xs[1..], keep[1..], 0, hi - 1);
        assert [xs[0]] + xs[1..][0..hi - 1] == xs[0..hi];
      } else {
        SelectRange(xs[1..], keep[1..], lo', hi');
        assert xs[1..][lo'..hi'] == xs[lo..hi];
      }
    }
  }

  /** A mask that keeps nothing selects nothing. */
  lemma {:induction false} SelectNone<T>(xs: seq<T>, keep: seq<bool>)
    requires |xs| == |keep|
    requires forall k :: 0 <= k < |xs| ==> !keep[k]
    ensures Select(xs, keep) == []
  {
    if |xs| > 0 {
      SelectNone(xs[1..], keep[1..]);
    }
  }
}
