# Pump-jack motion analysis, modelled in Dafny

This project is a Dafny model of the signal analysis behind a pump-jack
monitor. A detector (not part of this model) writes the vertical pixel
position of the pump jack's head for some video frames. It writes one line
`(frame, y)` per sample. Two scripts read that file:

* `Scripts/bpm.py` estimates the stroke rate in strokes per minute (BPM).
  - It fills the frames with no sample by linear interpolation, then
    smooths the signal with a moving average.
  - It finds the turning points of the smoothed signal and merges the
    turning points of one kind that lie within a merge distance.
  - It forces the maxima and minima to alternate.
  - It measures one period between each event and the event two places
    before it. The rate is 60 divided by the median period.
* `Scripts/on_off.py` decides whether the pump jack is moving.
  - It computes six movement metrics of the raw positions: variance,
    standard deviation, range, mean and largest change between
    consecutive samples, and trend.
  - It compares five of them against thresholds and weights the five
    scores.
  - It reports ON, OFF or UNKNOWN, with a confidence.

The Dafny modules follow the scripts:

* `Results` holds the error and result types.
* `Sorting` holds the sort used by `np.sort` and `np.median`, and the max
  and min.
* `Points` holds the shared `load_points` line parser and the writer's line
  format.
* `Signal` holds `interpolate_signal`, `smooth_ma` and `find_extrema`.
* `Events` holds `group_close`, the merge of the two event lists, and the
  alternation.
* `Bpm` holds `alternating_extrema`, the period loop and `bpm_cycle`.
* `OnOff` holds `calculate_movement_metrics` and `detect_on_off`.

Loops in the source become methods proved equal to a specification
function. Examples are the line-parsing loop, the grouping loop of
`group_close`, the alternation loop and the period loop. The properties the
scripts rely on are proved about those functions.

Three behaviours of the code are worth knowing, and the model has them:

* `smooth_ma` is `np.convolve(..., mode="same")` with a box kernel. The
  signal is padded with zeros and every output is divided by the full
  window, so near the edges the zeros pull the average toward 0.
* When the signal is shorter than the window, the smoothed signal has the
  window's length.
* An UNKNOWN result of `detect_on_off` carries no point count.

## Model

| member | source | states |
|---|---|---|
| Points.RStrip | Scripts/bpm.py:8 | the result is a prefix of the line, it does not end in white space, and only white space was removed |
| Points.Strip | Scripts/bpm.py:8 | the stripped line is never longer than the line |
| Points.StripSlice | Scripts/bpm.py:8 | the stripped line is a slice of the line that neither starts nor ends with white space, and only white space lies before and after it |
| Points.MatchRecord | Scripts/bpm.py:11 | a match needs a line starting with `(`, a non-empty all-digit frame group and a non-empty group of digits and dots |
| Points.MatchRecordSound | Scripts/bpm.py:11 | a match means the line starts with `(`, the first group, a comma, white space, the second group and `)` |
| Points.MatchRecordComplete | Scripts/bpm.py:11 | conversely, every line starting with `(`, a digit run, a comma, white space, a digits-and-dots run and `)` matches, with exactly those two runs as its groups |
| Points.DigitsValue | Scripts/bpm.py:13 | `int()` of a run of n digits is below 10 to the power n |
| Points.DecimalValue | Scripts/bpm.py:14 | `float()` of a digits-and-dots group succeeds exactly when the group has a digit and at most one dot |
| Points.ParseLine | Scripts/bpm.py:8-14 | a blank line is skipped, and any line that is not skipped matched the record pattern |
| Points.ParseLineCases | Scripts/bpm.py:8-14 | a line is skipped exactly when its stripped text does not match; it is malformed exactly when it matches and `float()` rejects the second group; otherwise it is the sample of `int()` of the first group and `float()` of the second |
| Points.Gather | Scripts/bpm.py:12-15 | on success there are as many frames as values and no more than outcomes; a failure names a malformed line |
| Points.GatherFirstError | Scripts/bpm.py:12-15 | loading fails exactly when some line is malformed, and the failure names the first malformed line |
| Points.RecordPositions | Scripts/bpm.py:12-14 | lists, in increasing order, exactly the positions of the sample lines |
| Points.GatherSamples | Scripts/bpm.py:12-15 | a successful load holds one sample per sample line, in file order, each with that line's frame and value |
| Points.GatherErrorPersists | Scripts/bpm.py:14 | once a line's number fails to parse, no later line changes the outcome, as the raised exception ends the loading |
| Points.Parsed | Scripts/bpm.py:5-15 | on success there are as many frames as values and no more than there are lines; a failure names a line whose number does not parse (and, as `Gather` of the line outcomes, the first one) |
| Points.ParseLines | Scripts/bpm.py:4-15 | the reading loop computes exactly `Parsed` of the file's lines |
| Points.NatText | Scripts/detection.py:57 | the decimal text the writer prints for a frame reads back as that frame |
| Points.DecimalTextValue | Scripts/bpm.py:14 | the text of a written decimal consists of digits and dots, and parses back to its value |
| Points.RecordLineRoundTrip | Scripts/detection.py:57 | a line written as `(frame, y)` parses back to that frame and value |
| Points.RecordLinesRoundTrip | Scripts/bpm.py:4-15 | a file of written lines loads back to exactly the written frames and values, in order |
| Sorting.SortBy | Scripts/bpm.py:42 | the result is sorted by the key and is a permutation of the input |
| Sorting.SortByMembers | Scripts/bpm.py:42 | sorting neither adds nor loses elements |
| Sorting.MaxOf | Scripts/on_off.py:68 | `np.max` is an element of the values and bounds all of them from above |
| Sorting.MinOf | Scripts/on_off.py:68 | `np.min` is an element of the values and bounds all of them from below |
| Signal.MaxFrame | Scripts/bpm.py:18 | `frames.max()` is one of the frames and no frame exceeds it |
| Signal.StoredAt | Scripts/bpm.py:20 | a position holds a stored value exactly when some sample has that frame; the value is that of the last such sample |
| Signal.PrevObserved | Scripts/bpm.py:23 | finds the nearest observed frame before a position, or reports that there is none |
| Signal.NextObserved | Scripts/bpm.py:23 | finds the nearest observed frame after a position below the last frame |
| Signal.FillAt | Scripts/bpm.py:20-23 | an observed position keeps its stored value, and every dense value lies between two of the sampled values |
| Signal.LerpBetween | Scripts/bpm.py:23 | between its two ends the interpolating line stays between their values |
| Signal.Interpolate | Scripts/bpm.py:17-24 | fails exactly on no samples; the dense signal spans frames 0 to the largest frame and keeps every stored sample |
| Signal.InterpolateKeepsSamples | Scripts/bpm.py:20 | with distinct frames, every sample's value is at its own frame |
| Signal.InterpolateBetween | Scripts/bpm.py:23 | a position strictly between two consecutive observed frames lies on the straight line through their values |
| Signal.InterpolateBeforeFirst | Scripts/bpm.py:23 | positions before the first observed frame take that frame's value (np.interp clamps on the left) |
| Signal.InterpolateSingleFrame | Scripts/bpm.py:21-23 | when every sample has one frame, the whole dense signal is that frame's value |
| Signal.CorrelateSame | Scripts/bpm.py:29 | the "same" correlation of a signal with a shorter kernel is as long as the signal |
| Signal.ConvolveSame | Scripts/bpm.py:29 | `np.convolve` fails exactly on an empty argument; the "same" output has the length of the longer argument |
| Signal.Window | Scripts/bpm.py:27 | the window is at least 1 and is the requested one whenever that is at least 1 |
| Signal.SmoothMA | Scripts/bpm.py:26-29 | smoothing fails exactly on an empty signal; otherwise its length is the longer of the signal and the window |
| Signal.SmoothIdentity | Scripts/bpm.py:26-29 | a window of at most 1 leaves the signal unchanged |
| Signal.DotConstant | Scripts/bpm.py:28 | a constant kernel scales the zero-padded window sum |
| Signal.SmoothWindowMean | Scripts/bpm.py:28-29 | for a signal at least as long as the window, each smoothed sample is the sum of the zero-padded centred window divided by the window size |
| Signal.BoxCorrelation | Scripts/bpm.py:28-29 | correlating with the reversed box kernel of width w gives the zero-padded window sum starting w / 2 before the sample, divided by w |
| Signal.TurnsBelow | Scripts/bpm.py:35-36 | lists, in increasing order, exactly the turning points of one kind below a bound |
| Signal.FindExtrema | Scripts/bpm.py:31-37 | the maxima and minima are increasing, are exactly the sign changes (with a zero step counting as rising), and have no index in common |
| Events.Chains | Scripts/bpm.py:43-48 | never more groups than indices, none exactly for no input, no group empty, and the last index ends the last group |
| Events.ChainsPartition | Scripts/bpm.py:43-48 | concatenating the groups gives back the sorted indices |
| Events.ChainsLinked | Scripts/bpm.py:43-48 | inside a group consecutive indices are at most the merge distance apart |
| Events.ChainsSeparated | Scripts/bpm.py:43-48 | consecutive groups are more than the merge distance apart |
| Events.ChainsOrdered | Scripts/bpm.py:43-48 | on sorted indices, every index of an earlier group lies more than the merge distance below every index of a later one |
| Events.ChainsMembers | Scripts/bpm.py:43-48 | every member of a group is one of the input indices |
| Events.ChainsCount | Scripts/bpm.py:43-48 | there is one group plus one more for each gap wider than the merge distance |
| Events.ChainGroups | Scripts/bpm.py:43-48 | the grouping loop builds exactly `Chains` of the sorted indices |
| Events.ExtremePos | Scripts/bpm.py:53-55 | `max`/`min` with a key picks a member that no member beats and that beats every earlier member, so ties keep the first |
| Events.SortIndices | Scripts/bpm.py:42 | `np.sort` orders the indices and keeps exactly the same members |
| Events.Collect | Scripts/bpm.py:50-55 | the collecting loop yields the representative of each group, in group order |
| Events.Grouped | Scripts/bpm.py:39-56 | `group_close` gives no more indices than its input, none exactly for no input, and only indices into the signal |
| Events.GroupClose | Scripts/bpm.py:39-56 | `group_close` returns its input when that is empty, else one representative per group of the sorted indices |
| Events.GroupedFromInput | Scripts/bpm.py:39-56 | the output is empty exactly when the input is, is never longer, and holds only input indices |
| Events.GroupedIncreasing | Scripts/bpm.py:39-56 | with a non-negative merge distance the representatives are strictly increasing |
| Events.GroupedExtreme | Scripts/bpm.py:50-55 | each representative is a member of its group, no member beats it, and it beats every member before it |
| Events.GroupedMonotone | Scripts/bpm.py:43-48 | a larger merge distance never leaves more representatives |
| Events.Tag | Scripts/bpm.py:69 | tagging keeps one event per index, all of the given kind |
| Events.MergeByIndex | Scripts/bpm.py:69-70 | the merged event list holds exactly the tagged maxima and minima, no more and no less |
| Events.MergeIncreasing | Scripts/bpm.py:69-70 | merging two increasing lists with no index in common gives events in strictly increasing index order |
| Events.Alternate | Scripts/bpm.py:74-84 | the cleaning loop as a fold of `Push`, one loop turn of lines 76-84 per event: the cleaned events alternate in kind, come from the input, are empty only for no input, and keep the first and the last event's kind |
| Events.AlternateKeepsExtreme | Scripts/bpm.py:74-84 | every input event is matched by a kept event of its kind that it does not beat, so no dropped maximum is higher and no dropped minimum is lower than a kept one |
| Events.AlternateKeepsFirstExtreme | Scripts/bpm.py:74-84 | the last kept event is the most extreme event of the final run of one kind, and the earliest of them on a tie |
| Events.AlternatePrefix | Scripts/bpm.py:74-84 | the events up to a change of kind are cleaned independently of what follows: their cleaned list is a strict prefix of the whole cleaned list |
| Events.AlternateRunExtreme | Scripts/bpm.py:80-84 | for every maximal run of one kind, the kept event at that run's place is the run's most extreme event, and the earliest of them on a tie, because only a strictly more extreme event replaces it |
| Events.AlternateIncreasing | Scripts/bpm.py:74-84 | cleaning events in increasing index order keeps them in increasing index order |
| Bpm.LoadPoints | Scripts/bpm.py:4-15 | a missing file is an error; otherwise the result is that of parsing its lines |
| Bpm.Trunc | Scripts/bpm.py:63-64 | `int()` of a float truncates toward zero |
| Bpm.MergeDistance | Scripts/bpm.py:62-64 | the merge distance is at least 1, and above 1 it is at most 15% of the shortest period bpm_max allows, in frames |
| Bpm.MergeDistanceAtDefaults | Scripts/bpm.py:58-64 | at 30 frames per second and the default bpm_max of 20, turning points up to 13 frames apart merge |
| Bpm.ExtremaInRange | Scripts/bpm.py:31-37 | every reported turning point indexes into the signal |
| Bpm.MergedEvents | Scripts/bpm.py:66-70 | every merged event indexes the smoothed signal and is a turning point of its kind |
| Bpm.Consolidate | Scripts/bpm.py:66-84 | the returned events alternate, index the smoothed signal, are merged events and are turning points of their kind |
| Bpm.ConsolidateFacts | Scripts/bpm.py:66-84 | the consolidated events alternate, strictly increase, are turning points, and are empty exactly when the smoothed signal has no turning point |
| Bpm.ExtremaOf | Scripts/bpm.py:58-86 | `alternating_extrema` fails exactly on an empty signal (in the convolution) or a zero bpm_max (a division by zero); otherwise its signal is `smooth_ma` of the input |
| Bpm.ExtremaOfFacts | Scripts/bpm.py:58-86 | `alternating_extrema` fails exactly on an empty signal or a zero bpm_max; otherwise the smoothed signal is as long as the longer of the signal and the window, and the events alternate, increase and are turning points |
| Bpm.AlternatingExtrema | Scripts/bpm.py:58-86 | the method returns exactly the events and smoothed signal of the function model |
| Bpm.ForceAlternation | Scripts/bpm.py:74-84 | the in-place cleaning loop produces exactly `Alternate` of the events |
| Bpm.AlternateStep | Scripts/bpm.py:76-84 | one loop turn appends an event of the other kind, replaces the last event by a strictly more extreme one, or keeps the list |
| Bpm.AlternatingRepeats | Scripts/bpm.py:94-97 | in an alternating list every event from the third on has the kind of the event two before it |
| Bpm.PeriodList | Scripts/bpm.py:92-98 | there are at most two fewer periods than events, and there is one exactly when some event matches the kind two before it |
| Bpm.PeriodsOfAlternating | Scripts/bpm.py:92-98 | on alternating events there are exactly two fewer periods than events, and period k runs from event k to event k + 2 |
| Bpm.PeriodsAtLeastTwoFrames | Scripts/bpm.py:92-98 | with increasing events and a positive frame rate, every period lasts at least two frames |
| Bpm.PeriodsNegative | Scripts/bpm.py:92-98 | with a negative frame rate, every period is negative |
| Bpm.Periods | Scripts/bpm.py:92-98 | the loop fails with a division by zero exactly when fps is 0 and a period exists, and otherwise returns the period list |
| Bpm.Median | Scripts/bpm.py:103 | the median lies between the smallest and the largest value, and for an odd count it is one of them |
| Bpm.Sample | Scripts/bpm.py:101 | `events[:10]` is the prefix of ten events, or all of them when there are fewer |
| Bpm.MedianOfPeriods | Scripts/bpm.py:103-104 | periods of at least two frames have a median of at least two frames; negative periods have a negative median |
| Bpm.MedianNonZero | Scripts/bpm.py:103-104 | with increasing events and a non-zero frame rate, `60 / T` never divides by zero |
| Bpm.RateBound | Scripts/bpm.py:104 | a period of at least two frames gives a positive rate of at most 30 times the frame rate |
| Bpm.EstimateOf | Scripts/bpm.py:92-105 | the period loop fails with a division by zero exactly when fps is 0 and a period exists; otherwise there is no cycle exactly when no period exists, the sample is `events[:10]`, and a cycle reports a non-zero median, 60 over it, and the number of periods |
| Bpm.EstimateFacts | Scripts/bpm.py:100-105 | on consolidated events there is no cycle exactly for fewer than three events; otherwise there are two fewer periods than events, the median spans at least two frames, and the BPM is positive and at most 30·fps |
| Bpm.CycleOf | Scripts/bpm.py:88-105 | `bpm_cycle` fails on no samples, fails with a division by zero on a zero bpm_max, and otherwise fails only with a division by zero at a zero fps |
| Bpm.BpmCycle | Scripts/bpm.py:88-105 | the method returns exactly the function model's estimate, including its failures |
| Bpm.CycleFacts | Scripts/bpm.py:88-105 | with a positive fps and a non-zero bpm_max, `bpm_cycle` fails only without samples, reports no cycle exactly when fewer than three consolidated events remain, and otherwise a positive BPM of at most 30·fps |
| OnOff.LoadPoints | Scripts/on_off.py:29-44 | a missing file reads as no samples; otherwise the result is that of parsing its lines |
| OnOff.SumBounds | Scripts/on_off.py:64 | a sum of values between two bounds lies between the count times each bound |
| OnOff.MeanBounds | Scripts/on_off.py:72 | the mean lies between the smallest and the largest value |
| OnOff.SquaredDeviations | Scripts/on_off.py:64 | the sum of squared deviations is never negative |
| OnOff.Variance | Scripts/on_off.py:64 | the population variance is never negative |
| OnOff.SumPositions | Scripts/on_off.py:77 | the positions 0 to n − 1 sum to n times their midpoint (n − 1) / 2 |
| OnOff.MeanPosition | Scripts/on_off.py:77 | the mean of the positions 0 to n − 1 is (n − 1) / 2 |
| OnOff.SumAffine | Scripts/on_off.py:76-78 | a sum of a·v[k] + b is a times the sum of v plus n times b |
| OnOff.MeanOfLine | Scripts/on_off.py:76-78 | the mean of samples on a line a·k + b is the line at the mean position |
| OnOff.PositionSpread | Scripts/on_off.py:76-78 | for two or more samples the positions are spread out, so the least-squares fit is defined |
| OnOff.SlopeOfLine | Scripts/on_off.py:76-78 | the degree-1 fit recovers a line exactly: samples a·k + b have slope a |
| OnOff.Range | Scripts/on_off.py:68 | the range is non-negative and bounds every difference of two values |
| OnOff.MeanChange | Scripts/on_off.py:72 | the mean change lies between 0 and the largest change |
| OnOff.MovementMetrics | Scripts/on_off.py:46-89 | under two samples all metrics are zero; variance, range and trend are non-negative; the mean change is at most the largest change; std is the square root of the variance; range and largest change bound every difference and every step |
| OnOff.Indicator | Scripts/on_off.py:139-143 | a score is 0 or 1 and is positive exactly when its condition holds |
| OnOff.ScoresOf | Scripts/on_off.py:138-144 | every score is 0 or 1; four scores are 1 exactly at or above their threshold, and the trend score only strictly above 0.1 |
| OnOff.TotalScore | Scripts/on_off.py:146-157 | the weighted total of 0/1 scores lies in [0, 1] and is 1 exactly when every score is 1 |
| OnOff.ActiveCount | Scripts/on_off.py:161 | at most five metrics are active |
| OnOff.OnIffThreeActive | Scripts/on_off.py:159-168 | two active metrics give a total of at most 0.55, so "three active or a total of 0.6" means three active, as lines 11-12 say |
| OnOff.Classify | Scripts/on_off.py:114-176 | no samples and one to four samples give the two UNKNOWN results; otherwise the status is ON exactly when at least three metrics are active, the confidence is the weighted total in [0, 1], and the reason says whether movement was seen and carries the active count and the weighted total |
| OnOff.DetectOnOff | Scripts/on_off.py:91-176 | a missing file gives the no-data UNKNOWN result, a number that does not parse is an error, and otherwise the result classifies the loaded positions |
| OnOff.FlatMetrics | Scripts/on_off.py:53-89 | a motionless signal has zero variance, range, mean and largest change, and trend |
| OnOff.FlatMean | Scripts/on_off.py:64 | a motionless signal's mean, minimum and maximum are its value |
| OnOff.FlatVariance | Scripts/on_off.py:64 | a motionless signal has zero variance |
| OnOff.FlatRange | Scripts/on_off.py:68 | a motionless signal has zero range |
| OnOff.FlatChanges | Scripts/on_off.py:71-73 | a motionless signal has zero mean and largest change |
| OnOff.FlatSlope | Scripts/on_off.py:76-78 | a motionless signal has a zero fitted slope |
| OnOff.FlatSignalOff | Scripts/on_off.py:91-176 | with the default thresholds, five or more equal positions are OFF with confidence 0 and no active metric |
| OnOff.StricterThresholdsStayOff | Scripts/on_off.py:138-168 | raising thresholds never turns an OFF decision into ON |

## Left out

- File reading is a parameter. A file is `None` when missing, else its lines. Opening the file and other I/O errors are not modelled.
- Floating point is modelled by exact reals. Rounding, NaN and infinities are not modelled.
- `np.std` takes its square root as a function parameter `sqrt`. Reals have no square root in the model.
- OnOff.Slope: the slope is the closed-form least-squares solution over exact reals (centred cross sum over centred square sum); numpy's `polyfit` reaches the same least-squares solution through an `lstsq` solve in floating point, whose rounding is not modelled.
- Points.MatchRecord: only the ASCII digits 0-9 count as frame digits. Python's `\d` (on a `str` pattern) and `int()` also accept the other Unicode decimal digits, such as Arabic-Indic or Devanagari ones. A line whose frame uses them is a sample for the script but is skipped by the model. The value group `[0-9.]` is ASCII in both.
- Bpm.Periods: a zero fps is reported as `DivisionByZero`. numpy divides its integer indices by 0 into infinite periods and a rate of 0, and IEEE infinities are not modelled.
- `bpm_min` is accepted and, as in the source, never used.
- Points.ParseLine: CPython 3.11 and later refuse `int()` of a decimal text longer than 4300 digits with a ValueError, so a frame of more than 4300 digits makes the script raise; the model reads any digit run as its value.
- Signal.Interpolate: `np.full` for a huge largest frame fails with a MemoryError or a too-large-dimension ValueError; the model builds the dense signal for any frame.
- Signal.StoredAt: with duplicate frames the last sample wins. This is numpy's practice for fancy assignment, not a documented guarantee.
- Python `int()` of a non-integer window size is not modelled; the window is an `int`.
- The reason texts are data constructors. Their formatted wording and `:.2f` rounding are not modelled.
- `check_pump_jack_status`, the `.env` loading, and the `detection.py`, `main.py` and `graficador.py` scripts are not part of this model. They are the detector, the orchestration and the plotting around the core. Of them, only the line format `detection.py` writes is modelled.
