/** Dive-start detection of `profile_dives` (divebomb/__init__.py): derive velocity
    and acceleration columns, keep the rows where a dive can start, pair them into
    blocks, drop blocks that never leave the surface, drop starts that come less
    than 30 seconds after the previous one, and pair the rest into blocks again.

    The frame is modelled as two columns, `time` and `depth`, already sorted by
    strictly increasing time, with the row label equal to the row position. A list
    of starts is the list of their row labels. */
module DiveStarts {
  import opened Wrappers
  import opened Floats
  import opened Series

  /** Smallest time, in seconds, between a kept start and the start before it
      among those the max-depth filter of line 203 kept. */
  const MinimumStartGap: real := 30.0

  const MissingFolderMessage: string := "Error: You must provide a folder name or set ipython_display_mode=True"

  /** One dive: the positional slice data[startBlock:endBlock]. */
  datatype Block = Block(startBlock: nat, endBlock: nat)

  // ---------------------------------------------------------------------------
  // The derived columns, row by row, with NaN where pandas produces NaN.

  /** Row k of xs.diff(): NaN in row 0, the change since the previous row elsewhere. */
  function DiffAt(xs: seq<real>, k: nat): Float
    requires k < |xs|
  {
    if k == 0 then NaN else Num(xs[k] - xs[k - 1])
  }

  /** Row k of data['velocity'] = depth.diff() / time.diff(). */
  function VelocityAt(time: seq<real>, depth: seq<real>, k: nat): Float
    requires |time| == |depth| && k < |time|
  {
    Div(DiffAt(depth, k), DiffAt(time, k))
  }

  /** Row k of data['acceleration'] = velocity.diff() / time.diff(). */
  function AccelerationAt(time: seq<real>, depth: seq<real>, k: nat): Float
    requires |time| == |depth| && k < |time|
  {
    var velocityDiff := if k == 0 then NaN else Sub(VelocityAt(time, depth, k), VelocityAt(time, depth, k - 1));
    Div(velocityDiff, DiffAt(time, k))
  }

  /** Row k of the filter of line 191. accel_lead and depth_lead are the
      acceleration and depth.diff() columns shifted up one row, NaN in the last row. */
  function MaskAt(time: seq<real>, depth: seq<real>, accelerationThreshold: real, surfaceThreshold: real, k: nat): bool
    requires |time| == |depth| && k < |depth|
  {
    var accelLead := if k + 1 < |depth| then AccelerationAt(time, depth, k + 1) else NaN;
    var depthLead := if k + 1 < |depth| then DiffAt(depth, k + 1) else NaN;
    Ge(accelLead, Num(accelerationThreshold)) && Gt(depthLead, Num(0.0)) && Le(Num(depth[k]), Num(surfaceThreshold))
  }

  function CandidateMask(time: seq<real>, depth: seq<real>, accelerationThreshold: real, surfaceThreshold: real): seq<bool>
    requires |time| == |depth|
  {
    seq(|depth|, k requires 0 <= k < |depth| => MaskAt(time, depth, accelerationThreshold, surfaceThreshold, k))
  }

  /** The labels of the rows where the mask holds, in order (frame[mask].index). */
  function RowsWhere(mask: seq<bool>): (rows: seq<nat>)
    ensures IncreasingRows(rows)
    ensures forall i :: 0 <= i < |rows| ==> rows[i] < |mask| && mask[rows[i]]
    ensures forall k :: 0 <= k < |mask| && mask[k] ==> k in rows
  {
    if |mask| == 0 then []
    else
      var last := |mask| - 1;
      var front := RowsWhere(mask[..last]);
      assert forall k :: 0 <= k < last ==> mask[..last][k] == mask[k];
      if mask[last] then front + [last] else front
  }

  /** The candidate start rows of line 191. */
  function Candidates(time: seq<real>, depth: seq<real>, accelerationThreshold: real, surfaceThreshold: real): seq<nat>
    requires |time| == |depth|
  {
    RowsWhere(CandidateMask(time, depth, accelerationThreshold, surfaceThreshold))
  }

  /** data.index.max(), the label of the last row (only used when there is a row). */
  function LastLabel(n: nat): nat
  {
    if n == 0 then 0 else n - 1
  }

  /** end_block of the j-th start: the next start's label plus one, or for the last
      start the frame's last label (shift(-1) + 1, then fillna(index.max())). */
  function BlockEnd(starts: seq<nat>, j: nat, last: nat): nat
    requires j < |starts|
  {
    if j + 1 < |starts| then starts[j + 1] + 1 else last
  }

  function Blocks(starts: seq<nat>, last: nat): seq<Block>
  {
    seq(|starts|, j requires 0 <= j < |starts| => Block(starts[j], BlockEnd(starts, j, last)))
  }

  /** data[lo:hi].depth.max(): a positional slice, clipped to the frame as Python
      slices are, whose maximum is NaN when it is empty. */
  function SliceMax(depth: seq<real>, lo: nat, hi: nat): Float
  {
    var a := if lo <= |depth| then lo else |depth|;
    var b := if hi <= |depth| then hi else |depth|;
    if a < b then Num(Max(depth[a..b])) else NaN
  }

  /** The max_depth column written by the loop of lines 199-200. */
  function BlockMaxDepths(depth: seq<real>, blocks: seq<Block>): seq<Float>
  {
    seq(|blocks|, j requires 0 <= j < |blocks| => SliceMax(depth, blocks[j].startBlock, blocks[j].endBlock))
  }

  /** starts[starts.max_depth > surface_threshold] */
  function DeepStarts(starts: seq<nat>, maxDepths: seq<Float>, surfaceThreshold: real): seq<nat>
    requires |starts| == |maxDepths|
  {
    Select(starts, seq(|starts|, j requires 0 <= j < |starts| => Gt(maxDepths[j], Num(surfaceThreshold))))
  }

  predicate RowsBelow(rows: seq<nat>, n: nat)
  {
    forall j :: 0 <= j < |rows| ==> rows[j] < n
  }

  /** The time_diff column: starts.time.diff(). */
  function TimeDiffs(time: seq<real>, starts: seq<nat>): seq<Float>
    requires RowsBelow(starts, |time|)
  {
    var startTimes := seq(|starts|, j requires 0 <= j < |starts| => time[starts[j]]);
    seq(|starts|, j requires 0 <= j < |starts| => DiffAt(startTimes, j))
  }

  /** starts[starts.time_diff >= 30] */
  function GapStarts(time: seq<real>, starts: seq<nat>): seq<nat>
    requires RowsBelow(starts, |time|)
  {
    var diffs := TimeDiffs(time, starts);
    Select(starts, seq(|starts|, j requires 0 <= j < |starts| => Ge(diffs[j], Num(MinimumStartGap))))
  }

  /** The starts that survive the max-depth filter of line 203. */
  function DeepCandidates(time: seq<real>, depth: seq<real>, accelerationThreshold: real, surfaceThreshold: real): seq<nat>
    requires |time| == |depth|
  {
    var candidates := Candidates(time, depth, accelerationThreshold, surfaceThreshold);
    DeepStarts(candidates, BlockMaxDepths(depth, Blocks(candidates, LastLabel(|depth|))), surfaceThreshold)
  }

  /** The starts kept by the gap filter of line 206. */
  function FinalStarts(time: seq<real>, depth: seq<real>, accelerationThreshold: real, surfaceThreshold: real): seq<nat>
    requires |time| == |depth|
  {
    var deep := DeepCandidates(time, depth, accelerationThreshold, surfaceThreshold);
    DeepCandidatesBelow(time, depth, accelerationThreshold, surfaceThreshold);
    GapStarts(time, deep)
  }

  /** The frame `starts` at line 216, reduced to its start_block and end_block
      columns; its position is its reset index 0 .. m - 1. */
  function DiveStartBlocks(time: seq<real>, depth: seq<real>, accelerationThreshold: real, surfaceThreshold: real): seq<Block>
    requires |time| == |depth|
  {
    Blocks(FinalStarts(time, depth, accelerationThreshold, surfaceThreshold), LastLabel(|depth|))
  }

  lemma {:induction false} SelectBelow(rows: seq<nat>, keep: seq<bool>, n: nat)
    requires |rows| == |keep| && RowsBelow(rows, n)
    ensures RowsBelow(Select(rows, keep), n)
  {
    if |rows| > 0 {
      SelectBelow(rows[1..], keep[1..], n);
      assert Select(rows, keep) == (if keep[0] then [rows[0]] else []) + Select(rows[1..], keep[1..]);
    }
  }

  lemma DeepCandidatesBelow(time: seq<real>, depth: seq<real>, accelerationThreshold: real, surfaceThreshold: real)
    requires |time| == |depth|
    ensures RowsBelow(DeepCandidates(time, depth, accelerationThreshold, surfaceThreshold), |time|)
  {
    var candidates := Candidates(time, depth, accelerationThreshold, surfaceThreshold);
    var maxDepths := BlockMaxDepths(depth, Blocks(candidates, LastLabel(|depth|)));
    SelectBelow(candidates, seq(|candidates|, j requires 0 <= j < |candidates| => Gt(maxDepths[j], Num(surfaceThreshold))), |time|);
  }

  // ---------------------------------------------------------------------------
  // The same quantities as formulas over the samples.

  /** Velocity of row k >= 1: depth change over time change since the previous row. */
  function Velocity(time: seq<real>, depth: seq<real>, k: nat): real
    requires |time| == |depth| && 1 <= k < |time| && time[k - 1] < time[k]
  {
    (depth[k] - depth[k - 1]) / (time[k] - time[k - 1])
  }

  /** Acceleration of row k >= 2: velocity change over time change since the previous row. */
  function Acceleration(time: seq<real>, depth: seq<real>, k: nat): real
    requires |time| == |depth| && 2 <= k < |time| && time[k - 2] < time[k - 1] < time[k]
  {
    (Velocity(time, depth, k) - Velocity(time, depth, k - 1)) / (time[k] - time[k - 1])
  }

  /** Row k can start a dive: the next row accelerates downward by at least the
      threshold, the next row is deeper, and row k is at or above the surface threshold. */
  predicate IsStartCandidate(time: seq<real>, depth: seq<real>, accelerationThreshold: real, surfaceThreshold: real, k: nat)
    requires WellFormed(time, depth)
  {
    IncreasingPairs(time);
    && 1 <= k && k + 1 < |depth|
    && Acceleration(time, depth, k + 1) >= accelerationThreshold
    && depth[k + 1] - depth[k] > 0.0
    && depth[k] <= surfaceThreshold
  }

  lemma DivOfNums(a: real, b: real)
    requires b != 0.0
    ensures Div(Num(a), Num(b)) == Num(a / b)
  {
  }

  /** Row 0 of the velocity column is NaN; row k >= 1 is the velocity formula. */
  lemma VelocityAtFormula(time: seq<real>, depth: seq<real>, k: nat)
    requires |time| == |depth| && k < |time| && (k > 0 ==> time[k - 1] < time[k])
    ensures VelocityAt(time, depth, k) == if k == 0 then NaN else Num(Velocity(time, depth, k))
  {
    if k > 0 {
      DivOfNums(depth[k] - depth[k - 1], time[k] - time[k - 1]);
    }
  }

  lemma AccelerationFromVelocities(time: seq<real>, depth: seq<real>, k: nat, v1: real, v0: real)
    requires |time| == |depth| && 0 < k < |time| && time[k - 1] < time[k]
    requires VelocityAt(time, depth, k) == Num(v1) && VelocityAt(time, depth, k - 1) == Num(v0)
    ensures AccelerationAt(time, depth, k) == Num((v1 - v0) / (time[k] - time[k - 1]))
  {
    DivOfNums(v1 - v0, time[k] - time[k - 1]);
  }

  lemma AccelerationFormula(time: seq<real>, depth: seq<real>, k: nat)
    requires |time| == |depth| && 2 <= k < |time| && time[k - 2] < time[k - 1] < time[k]
    ensures Acceleration(time, depth, k) == (Velocity(time, depth, k) - Velocity(time, depth, k - 1)) / (time[k] - time[k - 1])
  {
  }

  /** Rows 0 and 1 of the acceleration column are NaN; row k >= 2 is the
      acceleration formula. */
  lemma AccelerationAtFormula(time: seq<real>, depth: seq<real>, k: nat)
    requires |time| == |depth| && k < |time| && (k >= 2 ==> time[k - 2] < time[k - 1] < time[k])
    ensures AccelerationAt(time, depth, k) == if k < 2 then NaN else Num(Acceleration(time, depth, k))
  {
    if k == 1 {
      VelocityAtFormula(time, depth, 0);
    } else if k >= 2 {
      VelocityAtFormula(time, depth, k);
      VelocityAtFormula(time, depth, k - 1);
      AccelerationFromVelocities(time, depth, k, Velocity(time, depth, k), Velocity(time, depth, k - 1));
      AccelerationFormula(time, depth, k);
    }
  }

  /** Row k passes the filter of line 191 exactly when it is a start candidate. */
  lemma CandidateMaskAt(time: seq<real>, depth: seq<real>, accelerationThreshold: real, surfaceThreshold: real, k: nat)
    requires WellFormed(time, depth) && k < |depth|
    ensures CandidateMask(time, depth, accelerationThreshold, surfaceThreshold)[k]
        <==> IsStartCandidate(time, depth, accelerationThreshold, surfaceThreshold, k)
  {
    if k + 1 < |depth| {
      if k >= 1 {
        IncreasingPairs(time);
        assert time[k - 1] < time[k] < time[k + 1];
      }
      AccelerationAtFormula(time, depth, k + 1);
    }
  }

  /** Two rows that share a time: the depth change over the zero time step is
      an infinite velocity, the acceleration after it is infinite too, and so
      the row before them passes the filter of line 191. */
  lemma RepeatedTimeCandidate()
    ensures VelocityAt([0.0, 1.0, 1.0], [0.0, 0.0, 1.0], 2) == PosInf
    ensures AccelerationAt([0.0, 1.0, 1.0], [0.0, 0.0, 1.0], 2) == PosInf
    ensures CandidateMask([0.0, 1.0, 1.0], [0.0, 0.0, 1.0], 0.015, 2.0)[1]
  {
    var time, depth := [0.0, 1.0, 1.0], [0.0, 0.0, 1.0];
    assert VelocityAt(time, depth, 1) == Num(0.0);
    assert VelocityAt(time, depth, 2) == PosInf;
    assert MaskAt(time, depth, 0.015, 2.0, 1);
  }

  /** Row 0 and the last row never pass the filter: the acceleration of row 1 is
      NaN, and the last row's accel_lead and depth_lead are NaN. */
  lemma BoundaryRowsNeverCandidates(time: seq<real>, depth: seq<real>, accelerationThreshold: real, surfaceThreshold: real)
    requires |time| == |depth| && |depth| > 0
    ensures !CandidateMask(time, depth, accelerationThreshold, surfaceThreshold)[0]
    ensures !CandidateMask(time, depth, accelerationThreshold, surfaceThreshold)[|depth| - 1]
  {
    if |depth| > 1 {
      AccelerationAtFormula(time, depth, 1);
    }
  }

  /** The candidate rows are, in order, exactly the start candidates. */
  lemma CandidatesCharacterization(time: seq<real>, depth: seq<real>, accelerationThreshold: real, surfaceThreshold: real)
    requires WellFormed(time, depth)
    ensures IncreasingRows(Candidates(time, depth, accelerationThreshold, surfaceThreshold))
    ensures forall k: nat :: k in Candidates(time, depth, accelerationThreshold, surfaceThreshold) <==>
      k < |depth| && IsStartCandidate(time, depth, accelerationThreshold, surfaceThreshold, k)
  {
    var mask := CandidateMask(time, depth, accelerationThreshold, surfaceThreshold);
    forall k: nat | k < |depth| {
      CandidateMaskAt(time, depth, accelerationThreshold, surfaceThreshold, k);
    }
  }

  // ---------------------------------------------------------------------------
  // The max-depth filter, the gap filter and the final blocks.

  /** Some sample of the positional slice depth[lo:hi] lies below depth s. */
  predicate ReachesDepth(depth: seq<real>, lo: nat, hi: nat, s: real)
  {
    exists r :: lo <= r < hi && r < |depth| && depth[r] > s
  }

  /** The slice maximum exceeds s exactly when some sample of the slice does;
      an empty slice (NaN maximum) never does. */
  lemma SliceMaxExceeds(depth: seq<real>, lo: nat, hi: nat, s: real)
    ensures Gt(SliceMax(depth, lo, hi), Num(s)) <==> ReachesDepth(depth, lo, hi, s)
  {
    var a := if lo <= |depth| then lo else |depth|;
    var b := if hi <= |depth| then hi else |depth|;
    if a < b {
      var slice := depth[a..b];
      var m := Max(slice);
      if m > s {
        var i :| 0 <= i < |slice| && slice[i] == m;
        assert depth[a + i] == m;
      } else {
        forall r | lo <= r < hi && r < |depth| ensures depth[r] <= s {
          assert slice[r - a] == depth[r];
        }
      }
    }
  }

  /** A candidate survives the max-depth filter exactly when the block it opens
      reaches below the surface threshold. */
  lemma DeepCandidatesMembership(time: seq<real>, depth: seq<real>, accelerationThreshold: real, surfaceThreshold: real, x: nat)
    requires |time| == |depth|
    ensures var candidates := Candidates(time, depth, accelerationThreshold, surfaceThreshold);
      x in DeepCandidates(time, depth, accelerationThreshold, surfaceThreshold) <==>
      exists j :: 0 <= j < |candidates| && candidates[j] == x
        && ReachesDepth(depth, x, BlockEnd(candidates, j, LastLabel(|depth|)), surfaceThreshold)
  {
    var candidates := Candidates(time, depth, accelerationThreshold, surfaceThreshold);
    var blocks := Blocks(candidates, LastLabel(|depth|));
    var maxDepths := BlockMaxDepths(depth, blocks);
    var keep := seq(|candidates|, j requires 0 <= j < |candidates| => Gt(maxDepths[j], Num(surfaceThreshold)));
    SelectMembership(candidates, keep, x);
    forall j | 0 <= j < |candidates|
      ensures keep[j] <==> ReachesDepth(depth, candidates[j], BlockEnd(candidates, j, LastLabel(|depth|)), surfaceThreshold)
    {
      SliceMaxExceeds(depth, candidates[j], BlockEnd(candidates, j, LastLabel(|depth|)), surfaceThreshold);
    }
  }

  /** A start survives the gap filter exactly when it is not the first and comes
      at least 30 seconds after the start before it. */
  lemma GapStartsMembership(time: seq<real>, starts: seq<nat>, y: nat)
    requires RowsBelow(starts, |time|)
    ensures y in GapStarts(time, starts) <==>
      exists j :: 0 < j < |starts| && starts[j] == y && time[starts[j]] - time[starts[j - 1]] >= MinimumStartGap
  {
    var diffs := TimeDiffs(time, starts);
    var keep := seq(|starts|, j requires 0 <= j < |starts| => Ge(diffs[j], Num(MinimumStartGap)));
    SelectMembership(starts, keep, y);
    forall j | 0 <= j < |starts|
      ensures keep[j] <==> 0 < j && time[starts[j]] - time[starts[j - 1]] >= MinimumStartGap
    {
    }
  }

  /** The first start has a NaN time difference and is always dropped. */
  lemma FirstStartDropped(time: seq<real>, starts: seq<nat>)
    requires RowsBelow(starts, |time|) && IncreasingRows(starts) && |starts| > 0
    ensures starts[0] !in GapStarts(time, starts)
  {
    GapStartsMembership(time, starts, starts[0]);
  }

  /** A start kept by the gap filter lies at least 30 seconds after every
      earlier start offered to the filter, not only the one just before it. */
  lemma GapFromEveryEarlierStart(time: seq<real>, starts: seq<nat>, x: nat, y: nat)
    requires StrictlyIncreasing(time) && RowsBelow(starts, |time|) && IncreasingRows(starts)
    requires y in GapStarts(time, starts) && x in starts && x < y
    ensures x < |time| && y < |time| && time[y] - time[x] >= MinimumStartGap
  {
    IncreasingPairs(time);
    GapStartsMembership(time, starts, y);
    var j :| 0 < j < |starts| && starts[j] == y && time[starts[j]] - time[starts[j - 1]] >= MinimumStartGap;
    var q :| 0 <= q < |starts| && starts[q] == x;
    assert q < j;
    if q < j - 1 {
      assert x < starts[j - 1];
      assert time[x] < time[starts[j - 1]];
    }
  }

  lemma {:induction false} SelectSubset(rows: seq<nat>, keep: seq<bool>, y: nat)
    requires |rows| == |keep| && y in Select(rows, keep)
    ensures y in rows
  {
    SelectMembership(rows, keep, y);
  }

  /** The starts kept by the gap filter increase, are start candidates that
      survived the max-depth filter, and lie at least 30 seconds apart. */
  lemma FinalStartsProperties(time: seq<real>, depth: seq<real>, accelerationThreshold: real, surfaceThreshold: real)
    requires WellFormed(time, depth)
    ensures var starts := FinalStarts(time, depth, accelerationThreshold, surfaceThreshold);
      && IncreasingRows(starts)
      && (forall j :: 0 <= j < |starts| ==>
            && starts[j] in DeepCandidates(time, depth, accelerationThreshold, surfaceThreshold)
            && IsStartCandidate(time, depth, accelerationThreshold, surfaceThreshold, starts[j]))
      && (forall i, j :: 0 <= i < j < |starts| ==> time[starts[j]] - time[starts[i]] >= MinimumStartGap)
  {
    var candidates := Candidates(time, depth, accelerationThreshold, surfaceThreshold);
    var deep := DeepCandidates(time, depth, accelerationThreshold, surfaceThreshold);
    DeepCandidatesBelow(time, depth, accelerationThreshold, surfaceThreshold);
    var starts := GapStarts(time, deep);
    CandidatesCharacterization(time, depth, accelerationThreshold, surfaceThreshold);
    var maxDepths := BlockMaxDepths(depth, Blocks(candidates, LastLabel(|depth|)));
    var deepKeep := seq(|candidates|, j requires 0 <= j < |candidates| => Gt(maxDepths[j], Num(surfaceThreshold)));
    SelectIncreasing(candidates, deepKeep);
    var gapKeep := seq(|deep|, j requires 0 <= j < |deep| => Ge(TimeDiffs(time, deep)[j], Num(MinimumStartGap)));
    SelectIncreasing(deep, gapKeep);
    forall j | 0 <= j < |starts|
      ensures starts[j] in deep
      ensures IsStartCandidate(time, depth, accelerationThreshold, surfaceThreshold, starts[j])
    {
      SelectSubset(deep, gapKeep, starts[j]);
      SelectSubset(candidates, deepKeep, starts[j]);
    }
    forall i, j | 0 <= i < j < |starts|
      ensures time[starts[j]] - time[starts[i]] >= MinimumStartGap
    {
      GapFromEveryEarlierStart(time, deep, starts[i], starts[j]);
    }
  }

  /** Blocks built from increasing starts, each of which has a row after it: a
      block ends one row after the next block opens, so the two share that
      sample, and the last block ends at the last label. */
  lemma BlocksLayout(starts: seq<nat>, n: nat)
    requires IncreasingRows(starts) && forall j :: 0 <= j < |starts| ==> starts[j] + 1 < n
    ensures var blocks := Blocks(starts, LastLabel(n));
      && |blocks| == |starts|
      && (forall j :: 0 <= j < |blocks| ==> blocks[j].startBlock == starts[j] && blocks[j].startBlock < blocks[j].endBlock <= n - 1)
      && (forall j :: 0 <= j < |blocks| - 1 ==>
            blocks[j].startBlock < blocks[j + 1].startBlock < blocks[j].endBlock == blocks[j + 1].startBlock + 1)
      && (|blocks| > 0 ==> blocks[|blocks| - 1].endBlock == n - 1)
  {
    var blocks := Blocks(starts, LastLabel(n));
    forall j | 0 <= j < |blocks|
      ensures blocks[j].startBlock == starts[j] && blocks[j].startBlock < blocks[j].endBlock <= n - 1
    {
      if j + 1 < |starts| {
        assert starts[j] < starts[j + 1];
      }
    }
    forall j | 0 <= j < |blocks| - 1
      ensures blocks[j].startBlock < blocks[j + 1].startBlock < blocks[j].endBlock == blocks[j + 1].startBlock + 1
    {
      assert starts[j] < starts[j + 1];
    }
  }

  /** What `profile_dives` promises of the blocks it builds, on strictly
      increasing times:
      - every block opens at a start candidate that survived the max-depth filter;
      - every block ends after it opens and no later than the last row's label;
      - a block ends one row after the next block opens, so the two share the
        next block's first sample, and the last block ends at the last label;
      - the starts strictly increase and lie at least 30 seconds apart. */
  lemma DiveStartBlocksProperties(time: seq<real>, depth: seq<real>, accelerationThreshold: real, surfaceThreshold: real)
    requires WellFormed(time, depth)
    ensures var blocks := DiveStartBlocks(time, depth, accelerationThreshold, surfaceThreshold);
      && (forall j :: 0 <= j < |blocks| ==>
            && IsStartCandidate(time, depth, accelerationThreshold, surfaceThreshold, blocks[j].startBlock)
            && blocks[j].startBlock in DeepCandidates(time, depth, accelerationThreshold, surfaceThreshold)
            && blocks[j].startBlock < blocks[j].endBlock <= |depth| - 1)
      && (forall j :: 0 <= j < |blocks| - 1 ==>
            blocks[j].startBlock < blocks[j + 1].startBlock < blocks[j].endBlock == blocks[j + 1].startBlock + 1)
      && (|blocks| > 0 ==> blocks[|blocks| - 1].endBlock == |depth| - 1)
      && (forall i, j :: 0 <= i < j < |blocks| ==>
            && blocks[i].startBlock < blocks[j].startBlock
            && time[blocks[j].startBlock] - time[blocks[i].startBlock] >= MinimumStartGap)
  {
    var starts := FinalStarts(time, depth, accelerationThreshold, surfaceThreshold);
    FinalStartsProperties(time, depth, accelerationThreshold, surfaceThreshold);
    BlocksLayout(starts, |depth|);
  }

  // ---------------------------------------------------------------------------
  // The pipeline as the function runs it, and what it returns.

  /** The `iterrows` loop of lines 199-200: the max_depth column, written one
      block at a time. */
  method FillMaxDepths(depth: seq<real>, blocks: seq<Block>) returns (maxDepths: seq<Float>)
    ensures maxDepths == BlockMaxDepths(depth, blocks)
  {
    maxDepths := [];
    for j := 0 to |blocks|
      invariant maxDepths == BlockMaxDepths(depth, blocks)[..j]
    {
      maxDepths := maxDepths + [SliceMax(depth, blocks[j].startBlock, blocks[j].endBlock)];
    }
  }

  /** Why the start detection raised: line 203 reads the max_depth column,
      which only the first pass of the loop of lines 199-200 creates, so with no
      candidate at all the column is missing and pandas raises AttributeError. */
  datatype StartsError = MissingColumn(name: string)

  /** `profile_dives` up to line 216: the blocks, or the AttributeError of line 203. */
  function StartBlocks(time: seq<real>, depth: seq<real>, accelerationThreshold: real, surfaceThreshold: real)
    : (r: Result<seq<Block>, StartsError>)
    requires |time| == |depth|
    ensures r.Failure? <==> |Candidates(time, depth, accelerationThreshold, surfaceThreshold)| == 0
    ensures r.Failure? ==> r.error == MissingColumn("max_depth")
    ensures r.Success? ==> r.value == DiveStartBlocks(time, depth, accelerationThreshold, surfaceThreshold)
  {
    if |Candidates(time, depth, accelerationThreshold, surfaceThreshold)| == 0 then Failure(MissingColumn("max_depth"))
    else Success(DiveStartBlocks(time, depth, accelerationThreshold, surfaceThreshold))
  }

  /** `profile_dives` up to line 216, with the `iterrows` loop of lines 199-200
      writing the max_depth column one block at a time. */
  method ProfileDiveStarts(time: seq<real>, depth: seq<real>, accelerationThreshold: real, surfaceThreshold: real)
    returns (r: Result<seq<Block>, StartsError>)
    requires |time| == |depth|
    ensures r.Failure? <==> |Candidates(time, depth, accelerationThreshold, surfaceThreshold)| == 0
    ensures r == StartBlocks(time, depth, accelerationThreshold, surfaceThreshold)
  {
    var candidates := Candidates(time, depth, accelerationThreshold, surfaceThreshold);
    if |candidates| == 0 {
      return Failure(MissingColumn("max_depth"));
    }
    var firstBlocks := Blocks(candidates, LastLabel(|depth|));
    var maxDepths := FillMaxDepths(depth, firstBlocks);
    var deep := DeepStarts(candidates, maxDepths, surfaceThreshold);
    DeepCandidatesBelow(time, depth, accelerationThreshold, surfaceThreshold);
    var starts := GapStarts(time, deep);
    r := Success(Blocks(starts, LastLabel(|depth|)));
  }

  /** What `profile_dives` does (lines 191-224): raise at line 203 when there is
      no candidate; otherwise show the blocks in the notebook, return the error
      message, or go on to profile and export them under the folder. */
  datatype ProfileOutcome =
    | Raised(error: StartsError)
    | Displayed(blocks: seq<Block>)
    | FolderMissing(message: string)
    | ExportRequested(folder: string, blocks: seq<Block>)

  function ProfileDives(time: seq<real>, depth: seq<real>, accelerationThreshold: real, surfaceThreshold: real,
                        ipythonDisplayMode: bool, folder: Option<string>): (outcome: ProfileOutcome)
    requires |time| == |depth|
    ensures outcome.Raised? <==> |Candidates(time, depth, accelerationThreshold, surfaceThreshold)| == 0
    ensures outcome.Raised? ==> outcome.error == MissingColumn("max_depth")
    ensures outcome.Displayed? <==> !outcome.Raised? && ipythonDisplayMode
    ensures outcome.FolderMissing? <==> !outcome.Raised? && !ipythonDisplayMode && folder.None?
    ensures outcome.FolderMissing? ==> outcome.message == MissingFolderMessage
    ensures outcome.ExportRequested? ==> Some(outcome.folder) == folder
    ensures outcome.Displayed? || outcome.ExportRequested? ==>
      outcome.blocks == DiveStartBlocks(time, depth, accelerationThreshold, surfaceThreshold)
  {
    match StartBlocks(time, depth, accelerationThreshold, surfaceThreshold)
    case Failure(err) => Raised(err)
    case Success(blocks) =>
      if ipythonDisplayMode then Displayed(blocks)
      else if folder.None? then FolderMissing(MissingFolderMessage)
      else ExportRequested(folder.value, blocks)
  }

  /** A record that never leaves the surface has no candidate, so
      `profile_dives` raises whatever the display mode and folder. */
  lemma FlatRecordRaises(ipythonDisplayMode: bool, folder: Option<string>)
    ensures ProfileDives([0.0, 1.0, 2.0], [0.0, 0.0, 0.0], 0.015, 2.0, ipythonDisplayMode, folder)
         == Raised(MissingColumn("max_depth"))
  {
    var time, depth := [0.0, 1.0, 2.0], [0.0, 0.0, 0.0];
    assert !MaskAt(time, depth, 0.015, 2.0, 0) && !MaskAt(time, depth, 0.015, 2.0, 1) && !MaskAt(time, depth, 0.015, 2.0, 2);
    var mask := CandidateMask(time, depth, 0.015, 2.0);
    assert mask == [false, false, false];
    assert mask[..2] == [false, false] && mask[..2][..1] == [false] && mask[..2][..1][..0] == [];
  }
}
