/** The per-dive phase profiler `Dive` (divebomb/Dive.py) and the shape
    vocabulary of divebomb/DiveShape.py.

    A dive is the frame `data` after `sort_values('time').reset_index(drop=True)`:
    two columns `time` and `depth` of equal length, times strictly increasing,
    row label equal to row position. np.std is modelled by the population
    variance: every comparison the source makes between two standard deviations,
    or between a standard deviation and a constant c >= 0, is the same comparison
    between variances (or with c * c), because the square root is increasing.
    The class field `bottomVariance` therefore holds the variance of the bottom
    samples where the source stores their standard deviation. */
module DiveProfile {
  import opened Wrappers
  import opened Floats
  import opened Series

  /** The DiveShape enumeration; `Value` is str(shape). */
  datatype DiveShape = Square | VShape | LeftSkew | RightSkew | Other | Wiggle | Flat | Shallow
  {
    function Value(): string
    {
      match this
      case Square => "square"
      case VShape => "v-shape"
      case LeftSkew => "left skewed"
      case RightSkew => "right skewed"
      case Other => "other"
      case Wiggle => "wiggle"
      case Flat => "flat"
      case Shallow => "shallow"
    }
  }

  /** Why the attribute chain of lines 38-44 raised: an attribute read before it
      was ever set (lines 69, 91), or a `.loc` lookup of a row label the frame
      does not have (lines 63, 77). */
  datatype DiveError = MissingAttribute(name: string) | MissingLabel(row: int)

  /** A depth above this fraction of the maximum can end the descent (line 63). */
  const DescentDepthRatio: real := 0.8
  /** A depth above this fraction of the maximum can end the bottom phase (line 84). */
  const BottomDepthRatio: real := 0.85
  /** Defaults of `set_dive_shape` (line 123). */
  const MinimumSkewRatio: real := 2.0
  const VThreshold: real := 0.1
  const MinimumStd: real := 0.5
  const Separator: string := " - "

  // ---------------------------------------------------------------------------
  // get_descent_duration (lines 59-69)

  /** The running `std_dev` when row i is visited: 0 before row 0, then the
      variance of the rows already visited. */
  function RunningVariance(depth: seq<real>, i: nat): (r: real)
    requires i <= |depth|
    ensures r >= 0.0
  {
    if i == 0 then 0.0 else PopVariance(depth[..i])
  }

  /** next_std_dev <= std_dev: taking in row i does not raise the variance. */
  predicate VarianceSettles(depth: seq<real>, i: nat)
    requires i < |depth|
  {
    PopVariance(depth[..i + 1]) <= RunningVariance(depth, i)
  }

  /** At the last row, when the variance rose, `loc[i + 1]` is evaluated and raises. */
  predicate DescentRaisesAt(depth: seq<real>, i: nat)
    requires i < |depth|
  {
    i + 1 == |depth| && !VarianceSettles(depth, i)
  }

  /** The descent ends at row i. */
  predicate DescentEndsAt(depth: seq<real>, maxDepth: real, i: nat)
    requires i < |depth|
  {
    && (VarianceSettles(depth, i) || (i + 1 < |depth| && depth[i] >= depth[i + 1]))
    && depth[i] > maxDepth * DescentDepthRatio
  }

  /** The forward scan from row i: the row where the descent ends, or why the
      scan raised. */
  function DescentScanFrom(depth: seq<real>, maxDepth: real, i: nat): (r: Result<nat, DiveError>)
    requires i <= |depth|
    ensures r.Success? ==> i <= r.value < |depth|
    decreases |depth| - i
  {
    if i == |depth| then Failure(MissingAttribute("td_descent_duration"))
    else if DescentRaisesAt(depth, i) then Failure(MissingLabel(i + 1))
    else if DescentEndsAt(depth, maxDepth, i) then Success(i)
    else DescentScanFrom(depth, maxDepth, i + 1)
  }

  function DescentScan(depth: seq<real>, maxDepth: real): (r: Result<nat, DiveError>)
    ensures r.Success? ==> r.value < |depth|
  {
    DescentScanFrom(depth, maxDepth, 0)
  }

  // ---------------------------------------------------------------------------
  // get_ascent_duration (lines 72-91)

  /** The first loop, visiting rows i, i - 1, ..., 0: the first row whose
      predecessor is below the surface threshold; row 0 looks up label -1. */
  function EndIndexFrom(depth: seq<real>, surfaceThreshold: real, i: nat): (r: Result<nat, DiveError>)
    requires i < |depth|
    ensures r.Success? ==> 0 < r.value <= i
    ensures r.Failure? ==> r.error == MissingLabel(-1)
  {
    if i == 0 then Failure(MissingLabel(-1))
    else if depth[i - 1] > surfaceThreshold then Success(i)
    else EndIndexFrom(depth, surfaceThreshold, i - 1)
  }

  /** end_index. An empty frame skips both loops and reads the unset attribute. */
  function EndIndex(depth: seq<real>, surfaceThreshold: real): (r: Result<nat, DiveError>)
    ensures r.Success? ==> 0 < r.value < |depth|
    ensures |depth| == 0 ==> r == Failure(MissingAttribute("td_ascent_duration"))
    ensures |depth| > 0 && r.Failure? ==> r == Failure(MissingLabel(-1))
  {
    if |depth| == 0 then Failure(MissingAttribute("td_ascent_duration"))
    else EndIndexFrom(depth, surfaceThreshold, |depth| - 1)
  }

  /** next_std_dev at row i of the second loop: the label slice loc[i:end_index]
      holds rows i .. end_index, and is empty (NaN) when i > end_index. */
  function NextVariance(depth: seq<real>, e: nat, i: nat): Float
    requires e < |depth| && i < |depth|
  {
    if i <= e then Num(PopVariance(depth[i..e + 1])) else NaN
  }

  /** std_dev at row i of the second loop: 0 at the first row visited, then the
      value computed at the row visited before. */
  function PreviousVariance(depth: seq<real>, e: nat, i: nat): Float
    requires e < |depth| && i < |depth|
  {
    if i + 1 == |depth| then Num(0.0) else NextVariance(depth, e, i + 1)
  }

  /** The bottom phase ends at row i (counting back from the end of the dive). */
  predicate BottomEndsAt(depth: seq<real>, maxDepth: real, e: nat, i: nat)
    requires e < |depth| && 0 < i < |depth|
  {
    && (Lt(NextVariance(depth, e, i), PreviousVariance(depth, e, i)) || depth[i] >= depth[i - 1])
    && depth[i] > maxDepth * BottomDepthRatio
  }

  /** The second loop visits the first end_index rows of the time-descending
      frame, rows |depth| - 1 down to |depth| - end_index; `i` is the row about
      to be visited and |depth| - e - 1 means none is left. */
  function BottomScanFrom(depth: seq<real>, maxDepth: real, e: nat, i: int): (r: Result<nat, DiveError>)
    requires 0 < e < |depth| && |depth| - e - 1 <= i < |depth|
    ensures r.Success? ==> |depth| - e <= r.value <= i
    decreases i
  {
    if i == |depth| - e - 1 then Failure(MissingAttribute("td_ascent_duration"))
    else if BottomEndsAt(depth, maxDepth, e, i) then Success(i)
    else BottomScanFrom(depth, maxDepth, e, i - 1)
  }

  function BottomScan(depth: seq<real>, maxDepth: real, e: nat): (r: Result<nat, DiveError>)
    requires 0 < e < |depth|
    ensures r.Success? ==> |depth| - e <= r.value < |depth|
  {
    BottomScanFrom(depth, maxDepth, e, |depth| - 1)
  }

  /** The two loops together: end_index and the row where the bottom ends. The
      test end_index > 0 of line 86 always passes, since end_index >= 1. */
  datatype AscentRows = AscentRows(endIndex: nat, bottomEnd: nat)

  function AscentScan(depth: seq<real>, maxDepth: real, surfaceThreshold: real): (r: Result<AscentRows, DiveError>)
    ensures r.Success? ==> 0 < r.value.endIndex < |depth| && |depth| - r.value.endIndex <= r.value.bottomEnd < |depth|
  {
    match EndIndex(depth, surfaceThreshold)
    case Failure(err) => Failure(err)
    case Success(e) =>
      match BottomScan(depth, maxDepth, e)
      case Failure(err) => Failure(err)
      case Success(i) => Success(AscentRows(e, i))
  }

  // ---------------------------------------------------------------------------
  // get_descent_velocity, get_ascent_velocity, set_bottom_variance (lines 102-120)

  /** The boolean column data.time <= t0. */
  function AtOrBeforeMask(time: seq<real>, t0: real): (m: seq<bool>)
    ensures |m| == |time|
    ensures forall k {:trigger m[k]} :: 0 <= k < |time| ==> (m[k] <==> time[k] <= t0)
  {
    if |time| == 0 then [] else [time[0] <= t0] + AtOrBeforeMask(time[1..], t0)
  }

  /** The boolean column data.time >= t0. */
  function AtOrAfterMask(time: seq<real>, t0: real): (m: seq<bool>)
    ensures |m| == |time|
    ensures forall k {:trigger m[k]} :: 0 <= k < |time| ==> (m[k] <==> time[k] >= t0)
  {
    if |time| == 0 then [] else [time[0] >= t0] + AtOrAfterMask(time[1..], t0)
  }

  /** The boolean column (data.time >= lo) & (data.time <= hi). */
  function BetweenMask(time: seq<real>, lo: real, hi: real): (m: seq<bool>)
    ensures |m| == |time|
    ensures forall k {:trigger m[k]} :: 0 <= k < |time| ==> (m[k] <==> lo <= time[k] <= hi)
  {
    if |time| == 0 then [] else [lo <= time[0] <= hi] + BetweenMask(time[1..], lo, hi)
  }

  /** data[data.time <= t0].depth */
  function DepthsAtOrBefore(time: seq<real>, depth: seq<real>, t0: real): seq<real>
    requires |time| == |depth|
  {
    Select(depth, AtOrBeforeMask(time, t0))
  }

  /** data[data.time >= t0].depth */
  function DepthsAtOrAfter(time: seq<real>, depth: seq<real>, t0: real): seq<real>
    requires |time| == |depth|
  {
    Select(depth, AtOrAfterMask(time, t0))
  }

  /** data[(data.time >= lo) & (data.time <= hi)].depth */
  function DepthsBetween(time: seq<real>, depth: seq<real>, lo: real, hi: real): seq<real>
    requires |time| == |depth|
  {
    Select(depth, BetweenMask(time, lo, hi))
  }

  /** depth.max() - depth.min(), NaN for no samples. */
  function DepthRange(ds: seq<real>): (r: Float)
    ensures r.Num? <==> |ds| > 0
    ensures r.Num? ==> r.v >= 0.0
  {
    if |ds| == 0 then NaN else Num(Max(ds) - Min(ds))
  }

  /** A non-negative depth range over a positive duration is a non-negative
      speed; over a zero duration a zero range is NaN and a positive one +inf. */
  function Rate(range: Float, duration: real): (v: Float)
    requires range.Num? ==> range.v >= 0.0
    ensures range.Num? && duration > 0.0 ==> v.Num? && v.v >= 0.0
    ensures range.Num? && duration < 0.0 ==> v.Num? && v.v <= 0.0
    ensures range.Num? && duration == 0.0 ==> (v.NaN? <==> range.v == 0.0)
  {
    if range.Num? && duration != 0.0 then
      RatioSign(range.v, duration);
      Div(range, Num(duration))
    else
      Div(range, Num(duration))
  }

  lemma RatioSign(x: real, y: real)
    requires x >= 0.0 && y != 0.0
    ensures y > 0.0 ==> x / y >= 0.0
    ensures y < 0.0 ==> x / y <= 0.0
  {
    if y > 0.0 {
      assert x / y * y == x;
    } else {
      assert x / y * y == x;
    }
  }

  function DescentVelocity(time: seq<real>, depth: seq<real>, bottomStart: real, descentDuration: real): Float
    requires |time| == |depth|
  {
    Rate(DepthRange(DepthsAtOrBefore(time, depth, bottomStart)), descentDuration)
  }

  function AscentVelocity(time: seq<real>, depth: seq<real>, bottomStart: real, bottomDuration: real, ascentDuration: real): Float
    requires |time| == |depth|
  {
    Rate(DepthRange(DepthsAtOrAfter(time, depth, bottomStart + bottomDuration)), ascentDuration)
  }

  /** np.std(bottom_data.depth), as a variance: NaN when no sample lies in the bottom phase. */
  function BottomVariance(time: seq<real>, depth: seq<real>, bottomStart: real, bottomDuration: real): (r: Float)
    requires |time| == |depth|
    ensures r.Num? ==> r.v >= 0.0
  {
    var bottom := DepthsBetween(time, depth, bottomStart, bottomStart + bottomDuration);
    if |bottom| == 0 then NaN else Num(PopVariance(bottom))
  }

  // ---------------------------------------------------------------------------
  // set_dive_shape (lines 123-148)

  /** The three choices the label is made of: an optional skew, V or square, and
      wiggle or flat. */
  datatype ShapeParts = ShapeParts(skew: Option<DiveShape>, profile: DiveShape, texture: DiveShape)

  predicate ValidParts(p: ShapeParts)
  {
    && (p.skew == None || p.skew == Some(RightSkew) || p.skew == Some(LeftSkew))
    && (p.profile == VShape || p.profile == Square)
    && (p.texture == Wiggle || p.texture == Flat)
  }

  /** The choices of `set_dive_shape`, with the standard-deviation test
      std > 0.5 written as variance > 0.25 (NaN fails it). */
  function ShapeOf(descent: real, bottom: real, ascent: real, bottomVariance: Float): (p: ShapeParts)
    ensures ValidParts(p)
    ensures p.skew == Some(RightSkew) <==> ascent > descent * MinimumSkewRatio
    ensures p.skew == Some(LeftSkew) <==> !(ascent > descent * MinimumSkewRatio) && descent > ascent * MinimumSkewRatio
    ensures p.profile == VShape <==> bottom <= (descent + bottom + ascent) * VThreshold
    ensures p.texture == Wiggle <==> Gt(bottomVariance, Num(MinimumStd * MinimumStd))
  {
    var skew :=
      if ascent > descent * MinimumSkewRatio then Some(RightSkew)
      else if descent > ascent * MinimumSkewRatio then Some(LeftSkew)
      else None;
    var profile := if bottom <= (descent + bottom + ascent) * VThreshold then VShape else Square;
    var texture := if Gt(bottomVariance, Num(MinimumStd * MinimumStd)) then Wiggle else Flat;
    ShapeParts(skew, profile, texture)
  }

  /** The label string: "<skew> - " when there is a skew, then "<profile> - <texture>". */
  function Render(p: ShapeParts): string
  {
    (if p.skew.Some? then p.skew.value.Value() + Separator else "") + p.profile.Value() + Separator + p.texture.Value()
  }

  /** Reads back a label; None for a string `set_dive_shape` never builds. */
  function Parse(text: string): Option<ShapeParts>
  {
    var rightPrefix := RightSkew.Value() + Separator;
    var leftPrefix := LeftSkew.Value() + Separator;
    var skew :=
      if rightPrefix <= text then Some(RightSkew)
      else if leftPrefix <= text then Some(LeftSkew)
      else None;
    var rest :=
      if skew == Some(RightSkew) then text[|rightPrefix|..]
      else if skew == Some(LeftSkew) then text[|leftPrefix|..]
      else text;
    ParseProfile(skew, rest)
  }

  function ParseProfile(skew: Option<DiveShape>, rest: string): Option<ShapeParts>
  {
    var vPrefix := VShape.Value() + Separator;
    var squarePrefix := Square.Value() + Separator;
    if vPrefix <= rest then ParseTexture(skew, VShape, rest[|vPrefix|..])
    else if squarePrefix <= rest then ParseTexture(skew, Square, rest[|squarePrefix|..])
    else None
  }

  function ParseTexture(skew: Option<DiveShape>, profile: DiveShape, rest: string): Option<ShapeParts>
  {
    if rest == Wiggle.Value() then Some(ShapeParts(skew, profile, Wiggle))
    else if rest == Flat.Value() then Some(ShapeParts(skew, profile, Flat))
    else None
  }

  // ---------------------------------------------------------------------------
  // __init__ (lines 21-57): the attribute chain and its fallback

  /** The `shape` attribute: never set, a label string, or an enum member. */
  datatype ShapeField = Unset | Label(text: string) | Tag(member: DiveShape)

  /** The attributes a Dive ends up with. An attribute that was never set and one
      set to None are both None. */
  datatype DiveRecord = DiveRecord(
    sufficient: bool,
    bottomStart: Option<real>,
    tdBottomDuration: Option<real>,
    tdDescentDuration: Option<real>,
    tdAscentDuration: Option<real>,
    tdSurfaceDuration: Option<real>,
    bottomVariance: Option<Float>,
    descentVelocity: Option<Float>,
    ascentVelocity: Option<Float>,
    shape: ShapeField)

  /** The attributes before the try block of line 37. */
  function InitialRecord(): DiveRecord
  {
    DiveRecord(true, None, None, None, None, None, None, None, None, Unset)
  }

  /** The except clause of lines 46-57: insufficient, and for a dive that never
      goes below the surface threshold the six results cleared and the shape SHALLOW. */
  function Fallback(r: DiveRecord, maxDepth: Float, surfaceThreshold: real): (f: DiveRecord)
    ensures !f.sufficient
    ensures f.bottomStart == r.bottomStart && f.tdBottomDuration == r.tdBottomDuration
    ensures Le(maxDepth, Num(surfaceThreshold)) ==> f.shape == Tag(Shallow)
    ensures !Le(maxDepth, Num(surfaceThreshold)) ==> f.shape == r.shape && f.tdDescentDuration == r.tdDescentDuration
  {
    if Le(maxDepth, Num(surfaceThreshold)) then
      r.(sufficient := false, tdDescentDuration := None, tdAscentDuration := None, tdSurfaceDuration := None,
         bottomVariance := None, descentVelocity := None, ascentVelocity := None, shape := Tag(Shallow))
    else
      r.(sufficient := false)
  }

  /** The attributes once `get_descent_duration` returned, the descent ending at row b. */
  function AfterDescent(time: seq<real>, b: nat): DiveRecord
    requires b < |time|
  {
    InitialRecord().(bottomStart := Some(time[b]), tdDescentDuration := Some(Elapsed(time, 0, b)))
  }

  /** The time from row i to row j, time[j] - time[i]. */
  function Elapsed(time: seq<real>, i: nat, j: nat): real
    requires i < |time| && j < |time|
  {
    time[j] - time[i]
  }

  /** get_surface_duration: the whole duration less the three phases. */
  function SurfaceDuration(time: seq<real>, descent: real, bottom: real, ascent: real): real
    requires |time| > 0
  {
    (Max(time) - Min(time)) - descent - bottom - ascent
  }

  /** The attributes lines 40-44 add once the bottom start and the three phase
      durations are known, each computed from the ones before it. */
  function ChainRecord(time: seq<real>, depth: seq<real>, bottomStart: real, descent: real, bottom: real, ascent: real): (c: DiveRecord)
    requires |time| == |depth| && |time| > 0
    ensures c.sufficient && c.shape.Label?
    ensures c.tdSurfaceDuration.Some? && descent + bottom + ascent + c.tdSurfaceDuration.value == Max(time) - Min(time)
  {
    var variance := BottomVariance(time, depth, bottomStart, bottom);
    DiveRecord(
      true, Some(bottomStart), Some(bottom), Some(descent), Some(ascent), Some(SurfaceDuration(time, descent, bottom, ascent)),
      Some(variance),
      Some(DescentVelocity(time, depth, bottomStart, descent)),
      Some(AscentVelocity(time, depth, bottomStart, bottom, ascent)),
      Label(Render(ShapeOf(descent, bottom, ascent, variance))))
  }

  /** The attributes after the whole chain of lines 38-44 ran, the descent ending
      at row b and the bottom at row `rows.bottomEnd`. */
  function CompletedRecord(time: seq<real>, depth: seq<real>, b: nat, rows: AscentRows): DiveRecord
    requires |time| == |depth| && b < |time| && rows.endIndex < |time| && rows.bottomEnd < |time|
  {
    ChainRecord(time, depth, time[b], Elapsed(time, 0, b), Elapsed(time, b, rows.bottomEnd), Elapsed(time, rows.bottomEnd, rows.endIndex))
  }

  /** The chain completed from the bottom start and durations of rows b and
      `rows` is their completed record. */
  lemma CompletedChain(time: seq<real>, depth: seq<real>, b: nat, rows: AscentRows,
                       bottomStart: real, descent: real, bottom: real, ascent: real)
    requires |time| == |depth| && b < |time| && rows.endIndex < |time| && rows.bottomEnd < |time|
    requires bottomStart == time[b] && descent == Elapsed(time, 0, b)
    requires bottom == Elapsed(time, b, rows.bottomEnd) && ascent == Elapsed(time, rows.bottomEnd, rows.endIndex)
    ensures ChainRecord(time, depth, bottomStart, descent, bottom, ascent) == CompletedRecord(time, depth, b, rows)
  {
  }

  /** The Dive built from a sorted frame. An empty frame fails at line 69 before
      any sample is read. */
  function Profile(time: seq<real>, depth: seq<real>, surfaceThreshold: real): (r: DiveRecord)
    requires |time| == |depth|
    ensures r.sufficient <==> r.shape.Label?
    ensures |depth| == 0 ==> !r.sufficient && r.shape == Unset
  {
    var maxDepth := ColumnMax(depth);
    if |depth| == 0 then Fallback(InitialRecord(), maxDepth, surfaceThreshold)
    else
      match DescentScan(depth, maxDepth.v)
      case Failure(_) => Fallback(InitialRecord(), maxDepth, surfaceThreshold)
      case Success(b) =>
        match AscentScan(depth, maxDepth.v, surfaceThreshold)
        case Failure(_) => Fallback(AfterDescent(time, b), maxDepth, surfaceThreshold)
        case Success(rows) => CompletedRecord(time, depth, b, rows)
  }

  // ---------------------------------------------------------------------------
  // What the scans find

  /** From row i on, the forward scan stops at the first row where the descent
      ends, if there is one; otherwise it raises at the last row when the
      variance rose there, and reads the unset attribute when it did not. */
  lemma {:induction false} DescentScanFromFirst(depth: seq<real>, maxDepth: real, i: nat)
    requires i <= |depth|
    ensures var r := DescentScanFrom(depth, maxDepth, i);
      && (r.Success? <==> exists j :: i <= j < |depth| && DescentEndsAt(depth, maxDepth, j))
      && (r.Success? ==>
            && DescentEndsAt(depth, maxDepth, r.value)
            && forall j :: i <= j < r.value ==> !DescentEndsAt(depth, maxDepth, j))
      && (r.Failure? ==>
            r.error == if i < |depth| && !VarianceSettles(depth, |depth| - 1) then MissingLabel(|depth|)
                       else MissingAttribute("td_descent_duration"))
    decreases |depth| - i
  {
    if i < |depth| && !DescentRaisesAt(depth, i) && !DescentEndsAt(depth, maxDepth, i) {
      DescentScanFromFirst(depth, maxDepth, i + 1);
    }
  }

  /** The descent ends at row b exactly when b is the first row where it can
      end; the scan fails exactly when no row qualifies. */
  lemma DescentScanCharacterization(depth: seq<real>, maxDepth: real, b: nat)
    ensures DescentScan(depth, maxDepth) == Success(b) <==>
      b < |depth| && DescentEndsAt(depth, maxDepth, b) && forall j :: 0 <= j < b ==> !DescentEndsAt(depth, maxDepth, j)
    ensures DescentScan(depth, maxDepth).Failure? <==> forall j :: 0 <= j < |depth| ==> !DescentEndsAt(depth, maxDepth, j)
  {
    DescentScanFromFirst(depth, maxDepth, 0);
    var r := DescentScan(depth, maxDepth);
    if b < |depth| && DescentEndsAt(depth, maxDepth, b) && (forall j :: 0 <= j < b ==> !DescentEndsAt(depth, maxDepth, j)) {
      assert r.Success?;
    }
  }

  /** The variance of one sample is 0, which equals the initial std_dev, so the
      scan stops at row 0, with zero descent, when the first sample is deep enough. */
  lemma DescentEndsAtFirstRow(depth: seq<real>, maxDepth: real)
    requires |depth| > 0 && depth[0] > maxDepth * DescentDepthRatio
    ensures DescentScan(depth, maxDepth) == Success(0)
  {
    assert |depth[..1]| == 1;
    assert VarianceSettles(depth, 0);
  }

  lemma {:induction false} EndIndexFromLast(depth: seq<real>, surfaceThreshold: real, i: nat)
    requires i < |depth|
    ensures var r := EndIndexFrom(depth, surfaceThreshold, i);
      && (r.Success? ==>
            && depth[r.value - 1] > surfaceThreshold
            && forall j :: r.value <= j < i ==> depth[j] <= surfaceThreshold)
      && (r.Failure? ==> r.error == MissingLabel(-1) && forall j :: 0 <= j < i ==> depth[j] <= surfaceThreshold)
  {
    if i > 0 && depth[i - 1] <= surfaceThreshold {
      EndIndexFromLast(depth, surfaceThreshold, i - 1);
    }
  }

  /** end_index is the last row e >= 1 whose predecessor lies below the surface
      threshold; with no such row the lookup of label -1 raises. */
  lemma EndIndexCharacterization(depth: seq<real>, surfaceThreshold: real, e: nat)
    requires |depth| > 0
    ensures EndIndex(depth, surfaceThreshold) == Success(e) <==>
      && 0 < e < |depth| && depth[e - 1] > surfaceThreshold
      && forall j :: e <= j < |depth| - 1 ==> depth[j] <= surfaceThreshold
    ensures EndIndex(depth, surfaceThreshold) == Failure(MissingLabel(-1)) <==>
      forall j :: 0 <= j < |depth| - 1 ==> depth[j] <= surfaceThreshold
  {
    EndIndexFromLast(depth, surfaceThreshold, |depth| - 1);
    var r := EndIndex(depth, surfaceThreshold);
    if 0 < e < |depth| && depth[e - 1] > surfaceThreshold && forall j :: e <= j < |depth| - 1 ==> depth[j] <= surfaceThreshold {
      assert r.Success?;
    }
    if r.Success? {
      assert depth[r.value - 1] > surfaceThreshold;
    }
  }

  lemma {:induction false} BottomScanFromFirst(depth: seq<real>, maxDepth: real, e: nat, i: int)
    requires 0 < e < |depth| && |depth| - e - 1 <= i < |depth|
    ensures var r := BottomScanFrom(depth, maxDepth, e, i);
      && (r.Success? ==>
            && BottomEndsAt(depth, maxDepth, e, r.value)
            && forall j :: r.value < j <= i ==> !BottomEndsAt(depth, maxDepth, e, j))
      && (r.Failure? ==>
            && r.error == MissingAttribute("td_ascent_duration")
            && forall j :: |depth| - e <= j <= i ==> !BottomEndsAt(depth, maxDepth, e, j))
    decreases i
  {
    if i > |depth| - e - 1 && !BottomEndsAt(depth, maxDepth, e, i) {
      BottomScanFromFirst(depth, maxDepth, e, i - 1);
    }
  }

  /** The bottom ends at the last row, among the end_index rows the backward scan
      visits, where it can end; with none the unset attribute is read. */
  lemma BottomScanCharacterization(depth: seq<real>, maxDepth: real, e: nat, i: nat)
    requires 0 < e < |depth|
    ensures BottomScan(depth, maxDepth, e) == Success(i) <==>
      && |depth| - e <= i < |depth| && BottomEndsAt(depth, maxDepth, e, i)
      && forall j :: i < j < |depth| ==> !BottomEndsAt(depth, maxDepth, e, j)
    ensures BottomScan(depth, maxDepth, e) == Failure(MissingAttribute("td_ascent_duration")) <==>
      forall j :: |depth| - e <= j < |depth| ==> !BottomEndsAt(depth, maxDepth, e, j)
  {
    BottomScanFromFirst(depth, maxDepth, e, |depth| - 1);
    var r := BottomScan(depth, maxDepth, e);
    if |depth| - e <= i < |depth| && BottomEndsAt(depth, maxDepth, e, i) && forall j :: i < j < |depth| ==> !BottomEndsAt(depth, maxDepth, e, j) {
      assert r.Success?;
    }
  }

  // ---------------------------------------------------------------------------
  // The shape label

  lemma PrefixOfConcat(a: string, b: string)
    ensures a <= a + b && (a + b)[|a|..] == b
  {
    assert (a + b)[..|a|] == a;
  }

  lemma NotPrefixByFirst(a: string, t: string)
    requires |a| > 0 && |t| > 0 && a[0] != t[0]
    ensures !(a <= t)
  {
  }

  lemma ParseTextureOf(skew: Option<DiveShape>, profile: DiveShape, texture: DiveShape)
    requires texture == Wiggle || texture == Flat
    ensures ParseTexture(skew, profile, texture.Value()) == Some(ShapeParts(skew, profile, texture))
  {
    assert Wiggle.Value()[0] != Flat.Value()[0];
  }

  lemma ParseProfileOf(skew: Option<DiveShape>, profile: DiveShape, texture: DiveShape)
    requires (profile == VShape || profile == Square) && (texture == Wiggle || texture == Flat)
    ensures ParseProfile(skew, profile.Value() + Separator + texture.Value()) == Some(ShapeParts(skew, profile, texture))
  {
    var rest := profile.Value() + Separator + texture.Value();
    PrefixOfConcat(profile.Value() + Separator, texture.Value());
    ParseTextureOf(skew, profile, texture);
    if profile == Square {
      assert rest[0] == 's';
      NotPrefixByFirst(VShape.Value() + Separator, rest);
    }
  }

  /** Parse on a label opening with a skew prefix. */
  lemma ParseSkewed(skew: DiveShape, tail: string)
    requires skew == RightSkew || skew == LeftSkew
    ensures Parse(skew.Value() + Separator + tail) == ParseProfile(Some(skew), tail)
  {
    var text := skew.Value() + Separator + tail;
    PrefixOfConcat(skew.Value() + Separator, tail);
    if skew == LeftSkew {
      NotPrefixByFirst(RightSkew.Value() + Separator, text);
    }
  }

  /** Parse on a label without a skew prefix. */
  lemma ParseUnskewed(tail: string)
    requires |tail| > 0 && (tail[0] == 'v' || tail[0] == 's')
    ensures Parse(tail) == ParseProfile(None, tail)
  {
    NotPrefixByFirst(RightSkew.Value() + Separator, tail);
    NotPrefixByFirst(LeftSkew.Value() + Separator, tail);
  }

  lemma ParseRenderSkewed(p: ShapeParts)
    requires ValidParts(p) && p.skew.Some?
    ensures Parse(Render(p)) == Some(p)
  {
    var tail := p.profile.Value() + Separator + p.texture.Value();
    ParseProfileOf(p.skew, p.profile, p.texture);
    assert Render(p) == p.skew.value.Value() + Separator + tail;
    ParseSkewed(p.skew.value, tail);
  }

  lemma ParseRenderUnskewed(p: ShapeParts)
    requires ValidParts(p) && p.skew.None?
    ensures Parse(Render(p)) == Some(p)
  {
    var tail := p.profile.Value() + Separator + p.texture.Value();
    ParseProfileOf(p.skew, p.profile, p.texture);
    assert Render(p) == tail;
    assert tail[0] == p.profile.Value()[0];
    ParseUnskewed(tail);
  }

  /** Every label `set_dive_shape` can build reads back as the choices it was
      built from, so different choices never give the same label. */
  lemma ParseRender(p: ShapeParts)
    requires ValidParts(p)
    ensures Parse(Render(p)) == Some(p)
  {
    if p.skew.Some? {
      ParseRenderSkewed(p);
    } else {
      ParseRenderUnskewed(p);
    }
  }

  // ---------------------------------------------------------------------------
  // The samples each phase selects by time

  /** On strictly increasing times, the samples at or before time[b] are rows 0 .. b. */
  lemma DescentSamples(time: seq<real>, depth: seq<real>, b: nat)
    requires WellFormed(time, depth) && b < |time|
    ensures DepthsAtOrBefore(time, depth, time[b]) == depth[..b + 1]
  {
    IncreasingPairs(time);
    var keep := AtOrBeforeMask(time, time[b]);
    forall k | 0 <= k < |depth| ensures keep[k] <==> 0 <= k < b + 1 {
      if k > b { assert time[b] < time[k]; }
      if k < b { assert time[k] < time[b]; }
    }
    SelectRange(depth, keep, 0, b + 1);
  }

  /** On strictly increasing times, the samples at or after time[i] are rows i .. |depth| - 1. */
  lemma AscentSamples(time: seq<real>, depth: seq<real>, i: nat)
    requires WellFormed(time, depth) && i < |time|
    ensures DepthsAtOrAfter(time, depth, time[i]) == depth[i..]
  {
    IncreasingPairs(time);
    var keep := AtOrAfterMask(time, time[i]);
    forall k | 0 <= k < |depth| ensures keep[k] <==> i <= k < |depth| {
      if k > i { assert time[i] < time[k]; }
      if k < i { assert time[k] < time[i]; }
    }
    SelectRange(depth, keep, i, |depth|);
  }

  /** On strictly increasing times, the samples between time[b] and time[i] are
      rows b .. i, and none when i < b. */
  lemma BottomSamples(time: seq<real>, depth: seq<real>, b: nat, i: nat)
    requires WellFormed(time, depth) && b < |time| && i < |time|
    ensures DepthsBetween(time, depth, time[b], time[i]) == if b <= i then depth[b..i + 1] else []
  {
    IncreasingPairs(time);
    var keep := BetweenMask(time, time[b], time[i]);
    if b <= i {
      forall k | 0 <= k < |depth| ensures keep[k] <==> b <= k < i + 1 {
        if k < b { assert time[k] < time[b]; }
        if k > i { assert time[i] < time[k]; }
        if b < k < i { assert time[b] < time[k] < time[i]; }
      }
      SelectRange(depth, keep, b, i + 1);
    } else {
      forall k | 0 <= k < |depth| ensures !keep[k] {
        if k <= i { assert time[k] < time[b]; }
      }
      SelectNone(depth, keep);
    }
  }

  // ---------------------------------------------------------------------------
  // What a Dive ends up with

  /** The four ways the constructor ends: an empty frame or a failing forward
      scan falls back from the initial attributes, a failing backward search or
      scan falls back after the descent was recorded, and otherwise the chain
      completes. */
  lemma ProfileBranches(time: seq<real>, depth: seq<real>, surfaceThreshold: real)
    requires |time| == |depth|
    ensures |depth| == 0 ==> Profile(time, depth, surfaceThreshold) == Fallback(InitialRecord(), NaN, surfaceThreshold)
    ensures |depth| > 0 && DescentScan(depth, Max(depth)).Failure? ==>
      Profile(time, depth, surfaceThreshold) == Fallback(InitialRecord(), Num(Max(depth)), surfaceThreshold)
    ensures |depth| > 0 && DescentScan(depth, Max(depth)).Success? && AscentScan(depth, Max(depth), surfaceThreshold).Failure? ==>
      Profile(time, depth, surfaceThreshold)
      == Fallback(AfterDescent(time, DescentScan(depth, Max(depth)).value), Num(Max(depth)), surfaceThreshold)
    ensures |depth| > 0 && DescentScan(depth, Max(depth)).Success? && AscentScan(depth, Max(depth), surfaceThreshold).Success? ==>
      Profile(time, depth, surfaceThreshold)
      == CompletedRecord(time, depth, DescentScan(depth, Max(depth)).value, AscentScan(depth, Max(depth), surfaceThreshold).value)
  {
    if |depth| > 0 {
      match DescentScan(depth, Max(depth))
      case Failure(_) =>
      case Success(b) =>
        match AscentScan(depth, Max(depth), surfaceThreshold)
        case Failure(_) =>
        case Success(rows) =>
    }
  }

  /** The chain completes exactly when the forward scan and both backward loops
      find their rows, and only a completed chain leaves a label string. */
  lemma ProfileSufficiency(time: seq<real>, depth: seq<real>, surfaceThreshold: real)
    requires |time| == |depth|
    ensures var r := Profile(time, depth, surfaceThreshold);
      && (r.sufficient <==>
            |depth| > 0 && DescentScan(depth, Max(depth)).Success? && AscentScan(depth, Max(depth), surfaceThreshold).Success?)
      && (r.shape.Label? <==> r.sufficient)
  {
    ProfileBranches(time, depth, surfaceThreshold);
    var r := Profile(time, depth, surfaceThreshold);
    if |depth| > 0 && DescentScan(depth, Max(depth)).Success? && AscentScan(depth, Max(depth), surfaceThreshold).Success? {
      assert r.sufficient && r.shape.Label?;
    } else {
      assert !r.sufficient && !r.shape.Label?;
    }
  }

  /** A dive that never goes below the surface threshold has no end_index, so the
      chain always fails; it is labelled SHALLOW and its six results are cleared. */
  lemma ShallowDive(time: seq<real>, depth: seq<real>, surfaceThreshold: real)
    requires |time| == |depth| && |depth| > 0 && Max(depth) <= surfaceThreshold
    ensures var r := Profile(time, depth, surfaceThreshold);
      && !r.sufficient && r.shape == Tag(Shallow)
      && r.tdDescentDuration == None && r.tdAscentDuration == None && r.tdSurfaceDuration == None
      && r.bottomVariance == None && r.descentVelocity == None && r.ascentVelocity == None
  {
    EndIndexCharacterization(depth, surfaceThreshold, 0);
    assert AscentScan(depth, Max(depth), surfaceThreshold).Failure?;
    ProfileBranches(time, depth, surfaceThreshold);
  }

  /** SHALLOW goes exactly to the non-empty dives whose maximum depth is at most
      the surface threshold. */
  lemma ShallowExactly(time: seq<real>, depth: seq<real>, surfaceThreshold: real)
    requires |time| == |depth|
    ensures Profile(time, depth, surfaceThreshold).shape == Tag(Shallow) <==> |depth| > 0 && Max(depth) <= surfaceThreshold
  {
    ProfileBranches(time, depth, surfaceThreshold);
    if |depth| > 0 && Max(depth) <= surfaceThreshold {
      ShallowDive(time, depth, surfaceThreshold);
    }
  }

  /** A deeper dive that fails keeps what the chain had set before it raised:
      the descent duration and bottom start when the forward scan succeeded,
      nothing else, and no shape. */
  lemma FallbackOutcome(time: seq<real>, depth: seq<real>, surfaceThreshold: real)
    requires |time| == |depth|
    ensures var r := Profile(time, depth, surfaceThreshold);
      !r.sufficient && !(|depth| > 0 && Max(depth) <= surfaceThreshold) ==>
        && r.shape == Unset && r.tdBottomDuration == None && r.tdAscentDuration == None && r.tdSurfaceDuration == None
        && r.bottomVariance == None && r.descentVelocity == None && r.ascentVelocity == None
        && (r.tdDescentDuration.Some? <==> |depth| > 0 && DescentScan(depth, Max(depth)).Success?)
        && (r.bottomStart.Some? <==> r.tdDescentDuration.Some?)
  {
    ProfileBranches(time, depth, surfaceThreshold);
  }

  /** On strictly increasing times the four phases of a completed chain add up
      to the whole duration of the frame; the surface phase is the time after
      end_index, and the descent and surface phases are never negative. */
  lemma CompletedDurations(time: seq<real>, depth: seq<real>, b: nat, rows: AscentRows)
    requires WellFormed(time, depth) && b < |time| && rows.endIndex < |time| && rows.bottomEnd < |time|
    ensures var r := CompletedRecord(time, depth, b, rows);
      && r.tdDescentDuration.Some? && r.tdBottomDuration.Some? && r.tdAscentDuration.Some? && r.tdSurfaceDuration.Some?
      && r.tdDescentDuration.value + r.tdBottomDuration.value + r.tdAscentDuration.value + r.tdSurfaceDuration.value
         == time[|time| - 1] - time[0]
      && r.tdSurfaceDuration.value == time[|time| - 1] - time[rows.endIndex]
      && r.tdDescentDuration.value >= 0.0 && r.tdSurfaceDuration.value >= 0.0
  {
    SortedExtremes(time);
    IncreasingPairs(time);
    if b > 0 { assert time[0] < time[b]; }
    if rows.endIndex < |time| - 1 { assert time[rows.endIndex] < time[|time| - 1]; }
  }

  /** The same for the Dive a frame builds, when its chain completes. */
  lemma DurationsPartition(time: seq<real>, depth: seq<real>, surfaceThreshold: real)
    requires WellFormed(time, depth)
    ensures var r := Profile(time, depth, surfaceThreshold);
      r.sufficient ==>
        && r.tdDescentDuration.Some? && r.tdBottomDuration.Some? && r.tdAscentDuration.Some? && r.tdSurfaceDuration.Some?
        && r.tdDescentDuration.value + r.tdBottomDuration.value + r.tdAscentDuration.value + r.tdSurfaceDuration.value
           == time[|time| - 1] - time[0]
        && r.tdSurfaceDuration.value == time[|time| - 1] - time[AscentScan(depth, Max(depth), surfaceThreshold).value.endIndex]
        && r.tdDescentDuration.value >= 0.0 && r.tdSurfaceDuration.value >= 0.0
  {
    ProfileCompleted(time, depth, surfaceThreshold);
    if Profile(time, depth, surfaceThreshold).sufficient {
      CompletedDurations(time, depth, DescentScan(depth, Max(depth)).value, AscentScan(depth, Max(depth), surfaceThreshold).value);
    }
  }

  /** A completed dive is the record of its descent row and ascent rows. */
  lemma ProfileCompleted(time: seq<real>, depth: seq<real>, surfaceThreshold: real)
    requires |time| == |depth|
    ensures var r := Profile(time, depth, surfaceThreshold);
      r.sufficient ==>
        && |depth| > 0 && DescentScan(depth, Max(depth)).Success? && AscentScan(depth, Max(depth), surfaceThreshold).Success?
        && r == CompletedRecord(time, depth, DescentScan(depth, Max(depth)).value, AscentScan(depth, Max(depth), surfaceThreshold).value)
  {
    ProfileBranches(time, depth, surfaceThreshold);
  }

  /** The descent velocity of a dive whose descent ends at row b is the depth
      range of rows 0 .. b over time[b] - time[0]: NaN when b is row 0, a
      non-negative speed otherwise. */
  lemma DescentRate(time: seq<real>, depth: seq<real>, b: nat)
    requires WellFormed(time, depth) && b < |time|
    ensures DescentVelocity(time, depth, time[b], time[b] - time[0]) == Rate(DepthRange(depth[..b + 1]), time[b] - time[0])
    ensures b == 0 <==> DescentVelocity(time, depth, time[b], time[b] - time[0]).NaN?
    ensures b > 0 ==> DescentVelocity(time, depth, time[b], time[b] - time[0]).Num? && DescentVelocity(time, depth, time[b], time[b] - time[0]).v >= 0.0
  {
    DescentSamples(time, depth, b);
    if b == 0 {
      assert depth[..1] == [depth[0]];
    } else {
      IncreasingPairs(time);
      assert time[0] < time[b];
    }
  }

  /** The ascent velocity of a dive whose bottom ends at row i is the depth range
      of rows i .. n - 1 over the ascent duration. */
  lemma AscentRate(time: seq<real>, depth: seq<real>, b: nat, i: nat, e: nat)
    requires WellFormed(time, depth) && b < |time| && i < |time| && e < |time|
    ensures AscentVelocity(time, depth, time[b], time[i] - time[b], time[e] - time[i])
         == Rate(DepthRange(depth[i..]), time[e] - time[i])
  {
    assert time[b] + (time[i] - time[b]) == time[i];
    AscentSamples(time, depth, i);
  }

  /** The bottom variance is that of rows b .. i, and NaN when the bottom ends
      before it starts. */
  lemma BottomRate(time: seq<real>, depth: seq<real>, b: nat, i: nat)
    requires WellFormed(time, depth) && b < |time| && i < |time|
    ensures b <= i ==> BottomVariance(time, depth, time[b], time[i] - time[b]) == Num(PopVariance(depth[b..i + 1]))
    ensures i < b ==> BottomVariance(time, depth, time[b], time[i] - time[b]) == NaN
  {
    assert time[b] + (time[i] - time[b]) == time[i];
    BottomSamples(time, depth, b, i);
  }

  /** The shape of a completed chain is a label that reads back as the choices
      `set_dive_shape` makes from its durations and bottom variance. */
  lemma CompletedShape(time: seq<real>, depth: seq<real>, b: nat, rows: AscentRows)
    requires |time| == |depth| && b < |time| && rows.endIndex < |time| && rows.bottomEnd < |time|
    ensures var r := CompletedRecord(time, depth, b, rows);
      && r.shape.Label? && r.tdDescentDuration.Some? && r.tdBottomDuration.Some? && r.tdAscentDuration.Some?
      && r.bottomVariance.Some?
      && Parse(r.shape.text)
         == Some(ShapeOf(r.tdDescentDuration.value, r.tdBottomDuration.value, r.tdAscentDuration.value, r.bottomVariance.value))
  {
    var r := CompletedRecord(time, depth, b, rows);
    ParseRender(ShapeOf(r.tdDescentDuration.value, r.tdBottomDuration.value, r.tdAscentDuration.value, r.bottomVariance.value));
  }

  /** The same for the Dive a frame builds, when its chain completes. */
  lemma ProfileShape(time: seq<real>, depth: seq<real>, surfaceThreshold: real)
    requires |time| == |depth|
    ensures var r := Profile(time, depth, surfaceThreshold);
      r.sufficient ==>
        && r.shape.Label? && r.tdDescentDuration.Some? && r.tdBottomDuration.Some? && r.tdAscentDuration.Some?
        && r.bottomVariance.Some?
        && Parse(r.shape.text)
           == Some(ShapeOf(r.tdDescentDuration.value, r.tdBottomDuration.value, r.tdAscentDuration.value, r.bottomVariance.value))
  {
    ProfileCompleted(time, depth, surfaceThreshold);
    if Profile(time, depth, surfaceThreshold).sufficient {
      CompletedShape(time, depth, DescentScan(depth, Max(depth)).value, AscentScan(depth, Max(depth), surfaceThreshold).value);
    }
  }

  // ---------------------------------------------------------------------------
  // A dive whose ascent duration comes out negative

  /** The variance of a pair of samples. */
  lemma PairVariance(x: real, y: real)
    ensures PopVariance([x, y]) == (x - y) * (x - y) / 4.0
  {
    var s := [x, y];
    assert s[1..] == [y] && [y][1..] == [];
    assert Sum([y]) == y + Sum([]);
    assert Sum(s) == x + y;
    var mu := (x + y) / 2.0;
    assert Mean(s) == mu;
    assert SumSquaredDeviations([y], mu) == (y - mu) * (y - mu) + SumSquaredDeviations([], mu);
    assert SumSquaredDeviations(s, mu) == (x - mu) * (x - mu) + (y - mu) * (y - mu);
  }

  const ExampleTime: seq<real> := [0.0, 1.0, 2.0, 3.0]
  const ExampleDepth: seq<real> := [0.0, 10.0, 0.0, 10.0]

  /** Row 0 is too shallow; at row 1 the variance rose but the next sample is
      shallower, and row 1 is below 0.8 of the maximum. */
  lemma ExampleDescent()
    ensures Max(ExampleDepth) == 10.0
    ensures DescentScan(ExampleDepth, 10.0) == Success(1)
  {
    var depth := ExampleDepth;
    assert depth[1..][1..][1..] == [10.0];
    assert Max(depth) == 10.0;
    PairVariance(0.0, 10.0);
    assert depth[..1] == [0.0] && depth[..2] == [0.0, 10.0];
    assert !DescentEndsAt(depth, 10.0, 0);
    assert DescentEndsAt(depth, 10.0, 1);
    assert DescentScanFrom(depth, 10.0, 1) == Success(1);
  }

  /** end_index is 2, and the backward scan stops at once, at row 3. */
  lemma ExampleAscent()
    ensures AscentScan(ExampleDepth, 10.0, 2.0) == Success(AscentRows(2, 3))
  {
    var depth := ExampleDepth;
    assert EndIndexFrom(depth, 2.0, 2) == Success(2);
    assert EndIndexFrom(depth, 2.0, 3) == Success(2);
    assert NextVariance(depth, 2, 3) == NaN;
    assert BottomEndsAt(depth, 10.0, 2, 3);
    assert BottomScanFrom(depth, 10.0, 2, 3) == Success(3);
  }

  /** Times 0, 1, 2, 3 s, depths 0, 10, 0, 10 m, surface threshold 2 m: the
      descent ends at row 1 and end_index is 2, but the backward scan starts at
      the last row, past end_index, and stops there. The chain completes with a
      bottom phase of 2 s and an ascent of -1 s, and the surface phase makes up
      the difference. */
  lemma NegativeAscentExample()
    ensures var r := Profile(ExampleTime, ExampleDepth, 2.0);
      && r.sufficient
      && r.tdDescentDuration == Some(1.0) && r.tdBottomDuration == Some(2.0)
      && r.tdAscentDuration == Some(-1.0) && r.tdSurfaceDuration == Some(1.0)
  {
    ExampleDescent();
    ExampleAscent();
    assert StrictlyIncreasing(ExampleTime[2..]);
    assert StrictlyIncreasing(ExampleTime[1..]);
    SortedExtremes(ExampleTime);
    ProfileBranches(ExampleTime, ExampleDepth, 2.0);
  }
}
