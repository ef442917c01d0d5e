# divebomb core, modelled in Dafny

divebomb profiles the dives of a diving animal from a depth record: a frame whose
two columns are time, in seconds, and depth, in metres. The project models four
parts of the library.

- **Finding the dives.** `profile_dives` derives velocity and acceleration, keeps the
  near-surface rows where a descent is about to accelerate, and pairs those start
  rows into blocks. It drops blocks that never go below the surface threshold and
  starts that come less than 30 seconds after the previous start the depth filter
  kept, then pairs what is left into blocks again. With no candidate at all, the
  max_depth column is never created and the read at line 203 raises.
- **Profiling one dive** (`Dive`):
  - a forward scan ends the descent;
  - a backward scan ends the bottom phase and the ascent;
  - the surface duration, the descent and ascent velocities and the bottom
    variance follow;
  - a shape label (`DiveShape`) is built from those;
  - when any step fails, the fallback marks the dive insufficient, or shallow.
- **The aggregate attributes** that `DeepDive` computes over a whole record.

## Modules

The project has seven files.

- `wrappers.dfy`: `Option` and `Result`.
- `floats.dfy`: column entries as IEEE-like values.
  - A value is a number, +inf, -inf or NaN.
  - Every comparison with NaN is false.
  - Subtraction and division follow IEEE 754, infinities included. A repeated
    time with a depth change gives an infinite velocity, and with no depth
    change NaN, as in pandas. Signed zeros are not distinguished, and a zero
    divisor counts as positive zero.
- `series.dfy`: the column aggregates.
  - `max`, `min`, sums, means, the population variance that stands for
    `np.std`, and boolean-mask selection.
  - The order predicate of a time-sorted column.
- `divestarts.dfy`: module `DiveStarts`, for `profile_dives`.
- `dive.dfy`: module `DiveProfile`, the pure model of `Dive`.
  - The scans, as recursive functions, with their characterizations.
  - The shape label and its parser; this is also where the `DiveShape`
    enumeration lives.
  - `Profile`, the attributes a `Dive` ends up with.
- `diveclass.dfy`: module `DiveObject`, class `Dive`.
  - The getters work as the source does: loops that set fields one after
    another.
  - Each getter is proved against `DiveProfile`, and the constructor ends in
    exactly `Profile(...)`.
- `deepdive.dfy`: module `DeepDive`, the attributes record of `DeepDive` as a
  pure function.

## Modelling conventions

- **The frame.** A frame is two sequences of equal length.
  - Where the source sorts and resets the index, the model takes the sorted
    result: times strictly increase, and row labels equal row positions.
  - `diff()` gives NaN in row 0, and `shift(-1)` gives NaN in the last row. Both
    are written out.
- **Standard deviation.** `np.std` is the population variance.
  - Every comparison between two standard deviations is the same comparison
    between variances. Comparing against a constant c >= 0 compares against
    c * c; the square root is increasing.
  - The wiggle test `bottom_variance > 0.5` is therefore variance > 0.25.
  - The `bottomVariance` attribute holds the variance where the source stores
    its square root.
- **Exceptions.** The `Dive` constructor catches every exception its chain
  raises, so the model writes out what each one is (`DiveProfile.DiveError`):
  - reading `td_descent_duration` or `td_ascent_duration` before it was ever set
    (Dive.py:69, Dive.py:91);
  - a `.loc` lookup of a label the frame lacks (Dive.py:63, Dive.py:77).
- **Unset attributes.** An attribute never set and one set to `None` are both
  `None`.
- **Where the code and its stated intent differ, the model follows the code.**
  - Consecutive dive blocks overlap by one sample. `end_block` is the next
    start's label plus one, and the slice `data[start:end]` is positional.
  - The second loop of `get_ascent_duration` slices the time-descending frame
    positionally, `[:end_index]`. In an n-row frame it therefore visits rows
    n - 1 down to n - end_index. It does not walk back from `end_index`, and the
    rows it visits can lie after `end_index`. When the bottom ends after
    `end_index`, the ascent duration is negative. `DiveProfile.NegativeAscentExample` shows a
    four-row dive whose sufficient profile has ascent duration -1.
  - The test `end_index > 0` at Dive.py:86 always passes, because the first loop
    only stops at a row with a predecessor.

## Model

| member | source | states |
|---|---|---|
| DiveStarts.RowsWhere | divebomb/__init__.py:191 | the labels a boolean filter keeps: in increasing order, each one a row where the mask holds, and every such row among them |
| DiveStarts.VelocityAtFormula | divebomb/__init__.py:181 | velocity is NaN in row 0 and, elsewhere, the depth change over the time change since the previous row |
| DiveStarts.AccelerationAtFormula | divebomb/__init__.py:182 | acceleration is NaN in rows 0 and 1 and, elsewhere, the velocity change over the time change |
| DiveStarts.AccelerationFromVelocities | divebomb/__init__.py:182 | acceleration is the difference of two consecutive numeric velocities over the time step |
| DiveStarts.RepeatedTimeCandidate | divebomb/__init__.py:181-191 | two rows sharing a time give an infinite velocity and acceleration, and the row before them passes the start filter, as in pandas |
| DiveStarts.CandidateMaskAt | divebomb/__init__.py:185-191 | a row is a start candidate exactly when the next row's acceleration reaches the threshold, the next depth change is positive and the row is at or above the surface threshold |
| DiveStarts.BoundaryRowsNeverCandidates | divebomb/__init__.py:186-191 | the first and last rows are never candidates, because of the NaN from diff in row 0 and from shift(-1) in the last row |
| DiveStarts.CandidatesCharacterization | divebomb/__init__.py:191 | the candidate rows are increasing, and a row is among them exactly when it meets the three filter conditions |
| DiveStarts.SliceMaxExceeds | divebomb/__init__.py:200-203 | a block's max_depth exceeds the surface threshold exactly when some sample of its positional slice does; an empty slice never does |
| DiveStarts.DeepCandidatesBelow | divebomb/__init__.py:203 | every start kept by the depth filter is a row of the frame |
| DiveStarts.DeepCandidatesMembership | divebomb/__init__.py:194-203 | a start survives the depth filter exactly when it is a candidate whose block, up to the next candidate's label plus one or the last label, goes below the surface threshold |
| DiveStarts.GapStartsMembership | divebomb/__init__.py:205-206 | a start survives the gap filter exactly when it comes at least 30 s after the start before it |
| DiveStarts.FirstStartDropped | divebomb/__init__.py:205-206 | the first start never survives, since its time_diff is NaN |
| DiveStarts.GapFromEveryEarlierStart | divebomb/__init__.py:205-206 | over increasing times, a kept start is at least 30 s after every earlier start |
| DiveStarts.FinalStartsProperties | divebomb/__init__.py:191-206 | the final starts are increasing candidates that survived the depth filter, at least 30 s apart pairwise |
| DiveStarts.BlocksLayout | divebomb/__init__.py:194-197 | blocks start at the starts, and each ends one past the next start, so consecutive blocks share one sample; the last block ends at the last label |
| DiveStarts.DiveStartBlocksProperties | divebomb/__init__.py:191-216 | the blocks returned: each starts at a candidate that survived the depth filter, consecutive blocks overlap by one sample, the last ends at the last row, and starts are increasing and at least 30 s apart |
| DiveStarts.FillMaxDepths | divebomb/__init__.py:199-200 | the iterrows loop writes exactly the max_depth of every block, in order |
| DiveStarts.DeepCandidates | divebomb/__init__.py:194-203 | the starts the depth filter keeps; see DeepCandidatesMembership and DeepCandidatesBelow |
| DiveStarts.FinalStarts | divebomb/__init__.py:191-206 | the starts the gap filter keeps; see GapStartsMembership and FinalStartsProperties |
| DiveStarts.DiveStartBlocks | divebomb/__init__.py:191-216 | the blocks of the final starts; see BlocksLayout and DiveStartBlocksProperties |
| DiveStarts.StartBlocks | divebomb/__init__.py:191-216 | fails with the missing max_depth column exactly when there is no candidate, and otherwise gives DiveStartBlocks |
| DiveStarts.ProfileDiveStarts | divebomb/__init__.py:191-216 | with no candidate, max_depth is never created and line 203 raises; otherwise the iterrows loop that fills max_depth, followed by the two filters, yields exactly DiveStartBlocks |
| DiveStarts.ProfileDives | divebomb/__init__.py:191-223 | raises exactly when there is no candidate; otherwise display mode shows the blocks, a missing folder returns the error message, and otherwise the blocks go to export under the given folder |
| DiveStarts.FlatRecordRaises | divebomb/__init__.py:191-203 | a three-row record that stays at the surface has no candidate, so profile_dives raises in every mode |
| Series.ColumnMax | divebomb/Dive.py:33 | column max: NaN exactly for an empty column, otherwise at least every entry |
| Series.ColumnMin | divebomb/Dive.py:34 | column min: NaN exactly for an empty column, otherwise at most every entry |
| DiveProfile.DescentScanFrom | divebomb/Dive.py:61-69 | from row i on, the descent ends at a row at or after i; see DescentScanFromFirst |
| DiveProfile.EndIndexFrom | divebomb/Dive.py:75-79 | from row i back, end_index is a row with a predecessor, at most i; its only failure is the lookup of label -1; see EndIndexFromLast |
| DiveProfile.BottomScanFrom | divebomb/Dive.py:81-90 | the bottom ends among the last end_index rows, at or before the row the scan starts from; see BottomScanFromFirst |
| DiveProfile.DescentScan | divebomb/Dive.py:59-69 | the row the descent ends at lies in the frame |
| DiveProfile.DescentScanFromFirst | divebomb/Dive.py:61-69 | the forward scan stops at the first row where the variance does not rise, or the depth does not increase, and the depth is above 0.8 of the maximum; otherwise it raises a KeyError at the last row when the variance rose there, and otherwise reads the unset attribute |
| DiveProfile.DescentScanCharacterization | divebomb/Dive.py:61-69 | the descent ends at row b exactly when b is the first row meeting the end condition; the scan fails exactly when no row does |
| DiveProfile.DescentEndsAtFirstRow | divebomb/Dive.py:62-63 | a record that starts deeper than 0.8 of its maximum ends its descent at row 0 |
| DiveProfile.EndIndex | divebomb/Dive.py:73-79 | end_index is a row of the frame that has a predecessor; an empty frame reads the unset attribute, and any other failure is the lookup of label -1 |
| DiveProfile.EndIndexFromLast | divebomb/Dive.py:75-79 | the backward scan stops at the first row, counting from the end, whose predecessor is below the surface threshold; reaching row 0 looks up label -1 |
| DiveProfile.EndIndexCharacterization | divebomb/Dive.py:75-79 | end_index is e exactly when row e - 1 is below the surface threshold and no later row but the last is; the scan raises exactly when no row but the last is below it |
| DiveProfile.AscentScan | divebomb/Dive.py:72-91 | on success, end_index has a predecessor, and the bottom end is among the last end_index rows |
| DiveProfile.BottomScanFromFirst | divebomb/Dive.py:81-90 | the second loop stops at the first row it visits that meets the bottom-end condition (variance falls, or depth at least its predecessor's, and depth above 0.85 of the maximum); otherwise it reads the unset td_ascent_duration |
| DiveProfile.BottomScanCharacterization | divebomb/Dive.py:81-91 | the bottom ends at row i exactly when i is the last row of the visited range meeting the condition; the scan fails exactly when none does |
| DiveProfile.AtOrBeforeMask | divebomb/Dive.py:103 | the mask time <= t0, entry by entry |
| DiveProfile.AtOrAfterMask | divebomb/Dive.py:110-111 | the mask time >= t0, entry by entry |
| DiveProfile.BetweenMask | divebomb/Dive.py:117-118 | the mask lo <= time <= hi, entry by entry |
| DiveProfile.DescentSamples | divebomb/Dive.py:103 | over increasing times, the descent samples are rows 0 through the bottom start |
| DiveProfile.AscentSamples | divebomb/Dive.py:110-111 | the ascent samples are the rows from the bottom end on |
| DiveProfile.BottomSamples | divebomb/Dive.py:117-118 | the bottom samples are the rows from the bottom start to the bottom end, and none when the bottom ends first |
| DiveProfile.DepthRange | divebomb/Dive.py:104-105 | max minus min of a selection: NaN exactly when empty, otherwise non-negative |
| DiveProfile.Rate | divebomb/Dive.py:104-105 | a depth range over a duration: non-negative over a positive duration, non-positive over a negative one; over a zero one, NaN exactly when the range is 0 |
| DiveProfile.BottomVariance | divebomb/Dive.py:116-120 | the bottom variance is non-negative where it is a number |
| DiveProfile.DescentRate | divebomb/Dive.py:102-106 | the descent velocity is the depth range of rows 0..b over time[b] - time[0]; NaN exactly when b = 0, otherwise non-negative |
| DiveProfile.AscentRate | divebomb/Dive.py:109-113 | the ascent velocity is the depth range from the bottom end on, over the ascent duration |
| DiveProfile.BottomRate | divebomb/Dive.py:116-120 | the bottom variance is the variance of rows b..i, NaN when i < b |
| DiveProfile.ShapeOf | divebomb/Dive.py:123-145 | the label's parts: right skew exactly when ascent > 2 * descent; left skew exactly when not that and descent > 2 * ascent; V-shape exactly when bottom <= 0.1 of the total; wiggle exactly when the variance exceeds 0.25 (NaN gives flat) |
| DiveProfile.Render | divebomb/Dive.py:124-148 | the label string; see ParseRender |
| DiveProfile.ParseRender | divebomb/Dive.py:124-148 | the label string names its parts back: parsing a rendered label recovers its skew, profile and texture |
| DiveProfile.Fallback | divebomb/Dive.py:46-57 | the except clause: the dive is insufficient and keeps its bottom start and bottom duration; a shallow one gets the SHALLOW tag, any other keeps its shape and descent duration; see FallbackOutcome |
| DiveProfile.ChainRecord | divebomb/Dive.py:40-44 | the completed chain is sufficient, its shape is a label, and its four durations add up to the whole duration; see CompletedDurations |
| DiveProfile.Profile | divebomb/Dive.py:21-57 | a Dive is sufficient exactly when its shape is a label string, and an empty frame is insufficient with no shape; see ProfileSufficiency, ProfileCompleted, ShallowExactly and FallbackOutcome |
| DiveProfile.ProfileSufficiency | divebomb/Dive.py:37-47 | a dive is sufficient exactly when both scans succeed, and exactly then its shape is a label string |
| DiveProfile.ShallowDive | divebomb/Dive.py:46-55 | a dive whose maximum is at most the surface threshold is insufficient and SHALLOW, with its six results cleared |
| DiveProfile.ShallowExactly | divebomb/Dive.py:46-55 | the shape is SHALLOW exactly when the frame is not empty and never goes below the surface threshold |
| DiveProfile.FallbackOutcome | divebomb/Dive.py:35-57 | an insufficient dive that is not shallow keeps no shape, no bottom, ascent or surface duration, no variance and no velocities; it keeps the descent duration and bottom start exactly when the descent scan succeeded |
| DiveProfile.CompletedDurations | divebomb/Dive.py:95-99 | the four durations of a completed chain add up to the whole duration; the surface duration is the time after end_index, and it and the descent duration are non-negative |
| DiveProfile.DurationsPartition | divebomb/Dive.py:95-99 | a sufficient dive has four durations that add up to its whole duration, with non-negative descent and surface durations |
| DiveProfile.ProfileCompleted | divebomb/Dive.py:38-44 | a sufficient dive is the completed chain of its two scans |
| DiveProfile.CompletedShape | divebomb/Dive.py:123-148 | a completed chain's shape is the label of its own durations and variance |
| DiveProfile.ProfileShape | divebomb/Dive.py:123-148 | a sufficient dive's shape label parses to the parts its durations and variance choose |
| DiveProfile.PairVariance | divebomb/Dive.py:62 | the population variance of two samples is a quarter of their squared difference |
| DiveProfile.ExampleDescent | divebomb/Dive.py:59-69 | on the four-row example, the descent ends at row 1 |
| DiveProfile.ExampleAscent | divebomb/Dive.py:72-91 | on the four-row example, end_index is 2 and the bottom ends at row 3 |
| DiveProfile.NegativeAscentExample | divebomb/Dive.py:81-87 | a sufficient dive whose ascent duration is -1, which the positional slice of line 81 allows |
| DiveObject.Dive.constructor | divebomb/Dive.py:21-57 | the fields after construction: maximum depth, dive start, and attributes exactly Profile of the frame |
| DiveObject.Dive.GetDescentDuration | divebomb/Dive.py:59-69 | the loop returns time[b] - time[0] and sets the bottom start to time[b], for the row b the descent scan finds; it fails as the scan fails, and an empty frame reads the unset attribute; nothing else changes |
| DiveObject.Dive.FindEndIndex | divebomb/Dive.py:73-79 | the first loop of get_ascent_duration returns EndIndex |
| DiveObject.Dive.GetAscentDuration | divebomb/Dive.py:72-91 | the two loops return time[end_index] - time[i] and set the bottom duration to time[i] - bottom_start, for the rows the ascent scan finds; they fail as the scan fails; nothing else changes |
| DiveObject.Dive.GetSurfaceDuration | divebomb/Dive.py:95-99 | the whole duration less the three phases, stored in its field |
| DiveObject.Dive.SetBottomVariance | divebomb/Dive.py:116-120 | the variance of the bottom samples, stored in its field |
| DiveObject.Dive.GetDescentVelocity | divebomb/Dive.py:102-106 | the descent rate, stored in its field |
| DiveObject.Dive.GetAscentVelocity | divebomb/Dive.py:109-113 | the ascent rate, stored in its field |
| DiveObject.Dive.SetDiveShape | divebomb/Dive.py:123-148 | the string built piece by piece is the rendered label of ShapeOf and parses back to it; the shape field holds it |
| DiveObject.Dive.RunFallback | divebomb/Dive.py:46-57 | the except clause: the attributes become the fallback of the ones set so far |
| DiveObject.Dive.RunRemainingChain | divebomb/Dive.py:40-44 | the rest of the chain, surface duration through shape, ends in the chain record of the bottom start and three durations |
| DeepDive.Diffs | divebomb/DeepDive.py:80-92 | depth.diff() without its NaN row: one entry per step, the change from row k to row k + 1 |
| DeepDive.MeanOrNaN | divebomb/DeepDive.py:94-106 | a column mean is NaN exactly when no entry is selected |
| DeepDive.DiffsTelescope | divebomb/DeepDive.py:42 | the depth steps add up to last depth less first depth |
| DeepDive.SignSplit | divebomb/DeepDive.py:80-92 | the steps split into the increases and the decreases; the counts of the two fit in the number of steps |
| DeepDive.TimeSpan | divebomb/DeepDive.py:30-32 | dive_start and dive_end are the first and last times, and total_duration is their non-negative difference; all three are NaN on an empty frame |
| DeepDive.DepthExtrema | divebomb/DeepDive.py:28-29 | min_depth <= max_depth, and both are NaN exactly on an empty frame |
| DeepDive.DescentDistance | divebomb/DeepDive.py:80-85 | the descent distance is the sum of the depth increases, already non-negative |
| DeepDive.AscentDistance | divebomb/DeepDive.py:87-92 | the ascent distance is minus the sum of the depth decreases, and is non-negative |
| DeepDive.OverallChange | divebomb/DeepDive.py:39-42 | the overall change in depth is last less first depth, which is the distance descended less the distance ascended |
| DeepDive.Velocities | divebomb/DeepDive.py:37-38 | depth.diff() / time.diff() without its NaN row: one velocity per step; see VelocityValues and VelocitySigns |
| DeepDive.VelocityValues | divebomb/DeepDive.py:37-38 | over increasing times, each velocity is its depth step over its positive time step |
| DeepDive.VelocitySigns | divebomb/DeepDive.py:37 | over increasing times, each velocity has the sign of its depth step |
| DeepDive.AscentTransitionsAsWritten | divebomb/DeepDive.py:38 | line 38 as written, counting positive velocities; see TransitionsAreSteps and AscentCountCopiesDescent |
| DeepDive.AscentTransitions | divebomb/DeepDive.py:38 | line 38 as intended, counting negative velocities; see TransitionsAreSteps |
| DeepDive.DeepDiveAttributes | divebomb/DeepDive.py:28-42 | the attributes of lines 28-42; see TimeSpan, DepthExtrema, DescentAverage, AscentAverage, VerticalAverage, TransitionsAreSteps, DescentDistance, AscentDistance and OverallChange |
| DeepDive.CorrectedAttributes | divebomb/DeepDive.py:28-42 | the same record with the ascent count of line 38 as intended; see TransitionsAreSteps and TransitionBounds |
| DeepDive.TransitionsAreSteps | divebomb/DeepDive.py:37-38 | the descent count is the number of steps that go deeper; as written, the ascent count is that same number; in the corrected record it is the number of steps that go shallower |
| DeepDive.TransitionBounds | divebomb/DeepDive.py:37-38 | each count of the record is at most the n - 1 steps; in the corrected record the two counts together are at most n - 1 |
| DeepDive.DescentAverage | divebomb/DeepDive.py:101-106 | the average descent velocity is the mean of the positive velocities: positive, or NaN when there is none |
| DeepDive.AscentAverage | divebomb/DeepDive.py:94-99 | the average ascent velocity is the size of the mean of the negative velocities: positive, or NaN when there is none |
| DeepDive.VerticalAverage | divebomb/DeepDive.py:34 | the average vertical velocity is non-negative, and NaN exactly for fewer than two rows |
| DeepDive.AscentCountCopiesDescent | divebomb/DeepDive.py:37-38 | as written, the ascent count equals the descent count on every record |
| DeepDive.AscentCountCounterexample | divebomb/DeepDive.py:38 | a record that only goes deeper: the record has two ascent transitions, the corrected record none |

## Left out

- Sorting and `reset_index`: every frame is taken already sorted by time, with row labels equal to positions.
- Column renaming (`columns`), `date2num`/`num2date` conversion of non-float times: formatting steps with no effect on the sorted numeric columns.
- The surface threshold `cos(45°) * animal_length` of `profile_dives` (__init__.py:168): floating-point trigonometry, so the threshold is a parameter.
- Floating point: columns are exact reals, so rounding is not modelled; +inf and -inf appear only where a division by a zero time step produces them.
- `np.std`'s square root: the model keeps the variance, as explained above.
- Plotting, the notebook widget (`interact`), netCDF and CSV export, clustering, and the per-dive export loop of `profile_dives` after line 223 (I/O). The ProfileDives outcome `ExportRequested` stands for the export.
- The export loop passes `suppress_warning=True` to `Dive`, whose constructor has no such parameter, so that loop would raise a TypeError; it is outside the model.
- The Python 2 `print` of Dive.py:57: console output.
- The `divr` copies of Dive.py and DiveShape.py: an older duplicate of the same class.
- `DeepDive.get_peaks`, `depth_variance`, `get_time_at_depth` and the later attributes (DeepDive.py:33, 41, 43-45, 47-78): peak detection is a foreign library, and the second `get_time_at_depth`, which replaces the first, reads an undefined `post_depth_data`. As written, the constructor therefore raises at line 43 on every record; the model gives the attributes of lines 28-42 that are computed before that.
- DeepDive.DeepDiveAttributes: requires strictly increasing times, so the infinite or NaN velocities of a zero time step are not modelled there. It follows line 38 as written; DeepDive.CorrectedAttributes is the same record with the corrected ascent count.
- DiveObject.Dive.GetAscentDuration: requires `bottom_start` to be set. The source only calls it after `get_descent_duration` has set it; a direct call with `None` would raise a TypeError, which is not modelled.
- DiveObject.Dive.GetSurfaceDuration, SetBottomVariance, GetDescentVelocity, GetAscentVelocity, SetDiveShape: require the attributes they read to be set, as the constructor's chain guarantees.
- `to_dict` and the `DiveShape.__str__` plumbing: `Value` is the string of each member.

## Findings

| source | as written | input that shows it | evidently intended | confidence | as-written member | corrected member |
|---|---|---|---|---|---|---|
| divebomb/DeepDive.py:38 | `number_of_ascent_transitions` counts the rows whose velocity is `> 0`, the same filter as the descent count of line 37 | time [0, 1, 2], depth [0, 10, 20]: two ascent transitions on a dive that only descends | count the rows whose velocity is `< 0` | high (not executed) | DeepDive.AscentCountCounterexample | DeepDive.TransitionsAreSteps |
