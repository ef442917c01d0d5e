/** The Dive object of divebomb/Dive.py: a sorted frame, the attributes its
    constructor sets one after another, and the getters that set them. Each
    getter is proved against the pure model in DiveProfile; the constructor
    ends with exactly the attributes DiveProfile.Profile describes. */
module DiveObject {
  import opened Wrappers
  import opened Floats
  import opened Series
  import opened DiveProfile

  class Dive {
    const time: seq<real>
    const depth: seq<real>
    const surfaceThreshold: real
    /** data.depth.max() and data.time.min(), NaN for an empty frame. */
    const maxDepth: Float
    const diveStart: Float

    var sufficient: bool
    var bottomStart: Option<real>
    var tdBottomDuration: Option<real>
    var tdDescentDuration: Option<real>
    var tdAscentDuration: Option<real>
    var tdSurfaceDuration: Option<real>
    var bottomVariance: Option<Float>
    var descentVelocity: Option<Float>
    var ascentVelocity: Option<Float>
    var shape: ShapeField

    /** The attributes as a value. */
    function Record(): DiveRecord
      reads this
    {
      DiveRecord(sufficient, bottomStart, tdBottomDuration, tdDescentDuration, tdAscentDuration,
                 tdSurfaceDuration, bottomVariance, descentVelocity, ascentVelocity, shape)
    }

    /** Lines 21-57 on a frame already sorted by time: set the start attributes,
        run the attribute chain, and on any failure take the fallback. */
    constructor(time: seq<real>, depth: seq<real>, surfaceThreshold: real)
      requires |time| == |depth|
      ensures this.time == time && this.depth == depth && this.surfaceThreshold == surfaceThreshold
      ensures maxDepth == ColumnMax(depth)
      ensures diveStart == ColumnMin(time)
      ensures Record() == Profile(time, depth, surfaceThreshold)
    {
      this.time := time;
      this.depth := depth;
      this.surfaceThreshold := surfaceThreshold;
      maxDepth := ColumnMax(depth);
      diveStart := ColumnMin(time);
      sufficient := true;
      bottomStart := None;
      tdBottomDuration := None;
      tdDescentDuration := None;
      tdAscentDuration := None;
      tdSurfaceDuration := None;
      bottomVariance := None;
      descentVelocity := None;
      ascentVelocity := None;
      shape := Unset;
      new;
      var descent := GetDescentDuration();
      if descent.Failure? {
        RunFallback();
        ProfileBranches(time, depth, surfaceThreshold);
        return;
      }
      ghost var b := DescentScan(depth, Max(depth)).value;
      tdDescentDuration := Some(descent.value);
      assert Record() == AfterDescent(time, b);
      var ascent := GetAscentDuration();
      if ascent.Failure? {
        RunFallback();
        ProfileBranches(time, depth, surfaceThreshold);
        return;
      }
      ghost var rows := AscentScan(depth, Max(depth), surfaceThreshold).value;
      tdAscentDuration := Some(ascent.value);
      assert tdBottomDuration.value == Elapsed(time, b, rows.bottomEnd);
      CompletedChain(time, depth, b, rows, bottomStart.value, tdDescentDuration.value, tdBottomDuration.value, tdAscentDuration.value);
      RunRemainingChain();
      ProfileBranches(time, depth, surfaceThreshold);
    }

    /** Lines 40-44, once the bottom start and the three phase durations are
        set: the remaining attributes, each from those before it. */
    method RunRemainingChain()
      requires |time| == |depth| && |time| > 0 && sufficient
      requires bottomStart.Some? && tdDescentDuration.Some? && tdBottomDuration.Some? && tdAscentDuration.Some?
      modifies this
      ensures Record()
           == ChainRecord(time, depth, old(bottomStart.value), old(tdDescentDuration.value), old(tdBottomDuration.value),
                          old(tdAscentDuration.value))
    {
      var surface := GetSurfaceDuration();
      tdSurfaceDuration := Some(surface);
      var variance := SetBottomVariance();
      bottomVariance := Some(variance);
      var descentSpeed := GetDescentVelocity();
      descentVelocity := Some(descentSpeed);
      var ascentSpeed := GetAscentVelocity();
      ascentVelocity := Some(ascentSpeed);
      var text := SetDiveShape();
      shape := Label(text);
    }

    /** The except clause of lines 46-57. */
    method RunFallback()
      modifies this
      ensures Record() == Fallback(old(Record()), maxDepth, surfaceThreshold)
    {
      sufficient := false;
      if Le(maxDepth, Num(surfaceThreshold)) {
        tdDescentDuration := None;
        tdAscentDuration := None;
        tdSurfaceDuration := None;
        bottomVariance := None;
        descentVelocity := None;
        ascentVelocity := None;
        shape := Tag(Shallow);
      }
    }

    /** get_descent_duration (lines 59-69): walk forward with the running
        variance; at the row where the descent ends record bottom_start and
        return the descent duration. */
    method GetDescentDuration() returns (r: Result<real, DiveError>)
      requires |time| == |depth| && maxDepth == ColumnMax(depth)
      modifies this`bottomStart
      ensures |depth| == 0 ==> r == Failure(MissingAttribute("td_descent_duration")) && Record() == old(Record())
      ensures |depth| > 0 ==>
        match DescentScan(depth, Max(depth))
        case Success(b) => r == Success(Elapsed(time, 0, b)) && Record() == old(Record()).(bottomStart := Some(time[b]))
        case Failure(err) => r == Failure(err) && Record() == old(Record())
    {
      if |depth| == 0 {
        return Failure(MissingAttribute("td_descent_duration"));
      }
      var stdDev := 0.0;
      var i := 0;
      while i < |depth|
        invariant 0 <= i <= |depth|
        invariant stdDev == RunningVariance(depth, i)
        invariant DescentScanFrom(depth, maxDepth.v, i) == DescentScan(depth, maxDepth.v)
        invariant bottomStart == old(bottomStart)
        decreases |depth| - i
      {
        var nextStdDev := PopVariance(depth[..i + 1]);
        var settles := nextStdDev <= stdDev;
        if !settles && i + 1 == |depth| {
          // loc[i + 1] past the last row
          return Failure(MissingLabel(i + 1));
        }
        if (settles || depth[i] >= depth[i + 1]) && depth[i] > maxDepth.v * DescentDepthRatio {
          bottomStart := Some(time[i]);
          return Success(time[i] - time[0]);
        }
        stdDev := nextStdDev;
        i := i + 1;
      }
      return Failure(MissingAttribute("td_descent_duration"));
    }

    /** get_ascent_duration (lines 72-91): search back for end_index, then walk
        back over the first end_index rows of the time-descending frame; at the
        row where the bottom ends record td_bottom_duration and return the
        ascent duration. */
    method GetAscentDuration() returns (r: Result<real, DiveError>)
      requires |time| == |depth| && maxDepth == ColumnMax(depth) && bottomStart.Some?
      modifies this`tdBottomDuration
      ensures |depth| == 0 ==> r == Failure(MissingAttribute("td_ascent_duration")) && Record() == old(Record())
      ensures |depth| > 0 ==>
        match AscentScan(depth, Max(depth), surfaceThreshold)
        case Success(rows) =>
          && r == Success(Elapsed(time, rows.bottomEnd, rows.endIndex))
          && Record() == old(Record()).(tdBottomDuration := Some(time[rows.bottomEnd] - bottomStart.value))
        case Failure(err) => r == Failure(err) && Record() == old(Record())
    {
      if |depth| == 0 {
        return Failure(MissingAttribute("td_ascent_duration"));
      }
      var n := |depth|;
      var found := FindEndIndex();
      if found.Failure? {
        return Failure(found.error);
      }
      var endIndex := found.value;
      var stdDev := Num(0.0);
      var j: int := n - 1;
      while j > n - endIndex - 1
        invariant n - endIndex - 1 <= j < n
        invariant stdDev == PreviousVariance(depth, endIndex, j)
        invariant BottomScanFrom(depth, maxDepth.v, endIndex, j) == BottomScan(depth, maxDepth.v, endIndex)
        invariant Record() == old(Record())
        decreases j
      {
        var nextStdDev := NextVariance(depth, endIndex, j);
        if (Lt(nextStdDev, stdDev) || depth[j] >= depth[j - 1]) && depth[j] > maxDepth.v * BottomDepthRatio {
          assert AscentScan(depth, Max(depth), surfaceThreshold) == Success(AscentRows(endIndex, j));
          tdBottomDuration := Some(time[j] - bottomStart.value);
          // the test end_index > 0 always passes
          var ascent := time[endIndex] - time[j];
          assert ascent == Elapsed(time, j, endIndex);
          return Success(ascent);
        }
        stdDev := nextStdDev;
        j := j - 1;
      }
      assert AscentScan(depth, Max(depth), surfaceThreshold) == Failure(MissingAttribute("td_ascent_duration"));
      return Failure(MissingAttribute("td_ascent_duration"));
    }

    /** The first loop of get_ascent_duration (lines 74-79): from the last row
        back, the first row whose predecessor lies below the surface threshold. */
    method FindEndIndex() returns (r: Result<nat, DiveError>)
      requires |depth| > 0
      ensures r == EndIndex(depth, surfaceThreshold)
    {
      var i := |depth| - 1;
      while true
        invariant 0 <= i < |depth|
        invariant EndIndexFrom(depth, surfaceThreshold, i) == EndIndex(depth, surfaceThreshold)
        decreases i
      {
        if i == 0 {
          // loc[-1]: the frame has no label -1
          return Failure(MissingLabel(-1));
        }
        if depth[i - 1] > surfaceThreshold {
          return Success(i);
        }
        i := i - 1;
      }
    }

    /** get_surface_duration (lines 95-99): what is left of the whole duration. */
    method GetSurfaceDuration() returns (r: real)
      requires |time| > 0 && tdDescentDuration.Some? && tdBottomDuration.Some? && tdAscentDuration.Some?
      modifies this`tdSurfaceDuration
      ensures r == SurfaceDuration(time, tdDescentDuration.value, tdBottomDuration.value, tdAscentDuration.value)
      ensures Record() == old(Record()).(tdSurfaceDuration := Some(r))
    {
      var duration := Max(time) - Min(time);
      r := duration - tdDescentDuration.value - tdBottomDuration.value - tdAscentDuration.value;
      tdSurfaceDuration := Some(r);
    }

    /** set_bottom_variance (lines 116-120). */
    method SetBottomVariance() returns (r: Float)
      requires |time| == |depth| && bottomStart.Some? && tdBottomDuration.Some?
      modifies this`bottomVariance
      ensures r == BottomVariance(time, depth, bottomStart.value, tdBottomDuration.value)
      ensures Record() == old(Record()).(bottomVariance := Some(r))
    {
      r := BottomVariance(time, depth, bottomStart.value, tdBottomDuration.value);
      bottomVariance := Some(r);
    }

    /** get_descent_velocity (lines 102-106). */
    method GetDescentVelocity() returns (r: Float)
      requires |time| == |depth| && bottomStart.Some? && tdDescentDuration.Some?
      modifies this`descentVelocity
      ensures r == DescentVelocity(time, depth, bottomStart.value, tdDescentDuration.value)
      ensures Record() == old(Record()).(descentVelocity := Some(r))
    {
      r := DescentVelocity(time, depth, bottomStart.value, tdDescentDuration.value);
      descentVelocity := Some(r);
    }

    /** get_ascent_velocity (lines 109-113). */
    method GetAscentVelocity() returns (r: Float)
      requires |time| == |depth| && bottomStart.Some? && tdBottomDuration.Some? && tdAscentDuration.Some?
      modifies this`ascentVelocity
      ensures r == AscentVelocity(time, depth, bottomStart.value, tdBottomDuration.value, tdAscentDuration.value)
      ensures Record() == old(Record()).(ascentVelocity := Some(r))
    {
      r := AscentVelocity(time, depth, bottomStart.value, tdBottomDuration.value, tdAscentDuration.value);
      ascentVelocity := Some(r);
    }

    /** set_dive_shape (lines 123-148): the label built piece by piece, which
        reads back as the choices made from the durations and the variance. */
    method SetDiveShape() returns (r: string)
      requires tdDescentDuration.Some? && tdBottomDuration.Some? && tdAscentDuration.Some? && bottomVariance.Some?
      modifies this`shape
      ensures r == Render(ShapeOf(tdDescentDuration.value, tdBottomDuration.value, tdAscentDuration.value, bottomVariance.value))
      ensures Parse(r) == Some(ShapeOf(tdDescentDuration.value, tdBottomDuration.value, tdAscentDuration.value, bottomVariance.value))
      ensures Record() == old(Record()).(shape := Label(r))
    {
      var descent, bottom, ascent := tdDescentDuration.value, tdBottomDuration.value, tdAscentDuration.value;
      ghost var parts := ShapeOf(descent, bottom, ascent, bottomVariance.value);
      ghost var skewText := if parts.skew.Some? then parts.skew.value.Value() + Separator else "";
      var text := "";
      var totalDuration := descent + bottom + ascent;
      if ascent > descent * MinimumSkewRatio {
        text := text + RightSkew.Value();
        text := text + Separator;
      } else if descent > ascent * MinimumSkewRatio {
        text := text + LeftSkew.Value();
        text := text + Separator;
      }
      assert text == skewText;
      if bottom <= totalDuration * VThreshold {
        text := text + VShape.Value();
        text := text + Separator;
      } else {
        text := text + Square.Value();
        text := text + Separator;
      }
      assert text == skewText + parts.profile.Value() + Separator;
      if Gt(bottomVariance.value, Num(MinimumStd * MinimumStd)) {
        text := text + Wiggle.Value();
      } else {
        text := text + Flat.Value();
      }
      assert text == Render(parts);
      shape := Label(text);
      r := text;
      ParseRender(parts);
    }
  }
}
