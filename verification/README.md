# lcmodel: light-curve model features, in Dafny

A Dafny model of the `lcmodel` feature extractor of the TCP feature-extraction
code (`mltsp/TCP/Software/feature_extract/Code/extractors/lcmodel_extractor.py`). The extractor smooths a sampled light curve with a Gaussian
kernel and picks the kernel's width by minimising a generalized cross-validation
(GCV) score over the running-mean windows 10, 12, …, 48. It then subtracts
the median magnitude and derives six features from the normalised curve:
- the ratio of the 'pos' and 'neg' median-threshold magnitudes;
- the ratio of their pass counts;
- three pass counts per day;
- the ratio of the areas above and below the median.

Any exception inside `extract` leaves the feature dictionary empty, and each of
the six accessor extractors then reports 0.0.

Modules, one per stage of the pipeline:

| file | module | models |
|---|---|---|
| `runs.dfy` | `Runs` | `numpy.where` and the `j_prev` pass-counting loop |
| `thresholds.dfy` | `Thresholds` | `get_n_passing_median`, `get_dmag_at_median_threshold` |
| `area.dfy` | `Area` | `get_area`: segmentation and trapezoid sums |
| `sorting.dfy` | `Sorting` | the `zip`/`sort` at the head of `GCV` |
| `gcv.dfy` | `Gcv` | `rolling_window`, `GCV`, `minimize_GCV` |
| `kernel.dfy` | `Kernel` | `kernelSmooth` and the bandwidth |
| `peaks.dfy` | `Peaks` | `find_peaks` |
| `features.dfy` | `LcModel` | `extract` and the six accessors |
| `seqs.dfy`, `wrappers.dfy` | `Seqs`, `Wrappers` | sums, extrema, `Option` |

How the model represents the source:
- **Numbers.** Floats are `real`s.
- **The Gaussian.** It is a parameter `kernel`, and only its positivity is assumed.
- **Failures.** A Python exception that `extract` swallows is `None`.
- **Division by zero.** A numpy scalar division by zero warns and returns nan or inf. It is the value `NonFinite`.
- **Integer division.** The source is Python 2 code: `-window/2` and `window/2` are floor divisions. So the lead pad of `GCV` holds ceil(w/2) samples and the trailing pad floor(w/2)-1. Slices clamp on curves shorter than a pad.

Main results:
- **Window selection.** `minimize_GCV` succeeds exactly when the curve has at least 24 samples (`Gcv.MinimizeGCVDefined`). So every curve shorter than 24 samples yields an empty dictionary (`LcModel.ShortCurveHasNoFeatures`).
- **When `extract` fails.** Beyond short curves, `extract` fails exactly in two cases (`LcModel.ComputeFailsIff`):
  - the normalised model never rises above, or never falls below, 0;
  - neither side has two adjacent samples to integrate.
- **Feature ranges.** When features exist:
  - `pos_n_ratio` is a proper fraction;
  - `pos_mag_ratio` and (over non-decreasing times) `pos_area_ratio` lie in [0, 1] whenever they are finite;
  - the per-day rates are non-finite exactly when all times coincide.
- **Counting and areas.** The `j_prev` loop counts maximal runs, and `get_area` sums trapezoids over exactly the adjacent qualifying pairs.
- **GCV model.** Once the lead pad fits, the GCV model is the circular running mean.
- **Kernel smoothing.** Every smoothed value is a convex combination of the magnitudes.

Behaviour of the code worth noting:
- **Median.** The curve is normalised by the median of the raw magnitudes (`mltsp/TCP/Software/feature_extract/Code/extractors/lcmodel_extractor.py:196-197`). The median is an input `mMedian` to the model.
- **Median threshold.** It is the first threshold whose running count reaches half the count summed over all twenty thresholds (`mltsp/TCP/Software/feature_extract/Code/extractors/lcmodel_extractor.py:106-113`).
- **Padding.** The lead pad holds the last ceil(w/2) samples and the trailing pad the first floor(w/2)-1 (`mltsp/TCP/Software/feature_extract/Code/extractors/lcmodel_extractor.py:247-248`), each clamped to the whole curve.
- **When GCV fails.** `GCV` fails when `as_strided` sees a negative row count or the model does not broadcast against the magnitudes. For the candidate windows this comes to "N < w/2 and 3N ≠ w" (`Gcv.CandidateDefined`).
- **Division by zero.** Only `pos_area_ratio` can raise on a zero denominator: its operands are still Python floats when no segment was integrated. Every other ratio is a numpy division and yields nan/inf.
- **Times given to the smoother.** `extract` hands the smoother the raw times (`mltsp/TCP/Software/feature_extract/Code/extractors/lcmodel_extractor.py:192-194`). The fold `1 - diff` then gives a negative distance exactly to samples more than one unit apart (`Kernel.RawTimesWrapNegative`). The weight properties hold regardless, because the kernel is positive.

## Model

| member | source | states |
|---|---|---|
| Runs.Where | mltsp/TCP/Software/feature_extract/Code/extractors/lcmodel_extractor.py:95-97 | the indices where the mask holds, each exactly once, in ascending order |
| Runs.CountPassthroughs | mltsp/TCP/Software/feature_extract/Code/extractors/lcmodel_extractor.py:139-146 | the loop's count is the number of indices that do not continue the previous one (`j-1 != j_prev`, starting from -10); over the indices `numpy.where` returns for a mask it is the number of maximal runs of that mask |
| Runs.GroupCountOfWhere | mltsp/TCP/Software/feature_extract/Code/extractors/lcmodel_extractor.py:98-104 | over the indices `numpy.where` returns, the `j_prev` count is exactly the number of maximal runs of the mask |
| Runs.GroupCountBounds | mltsp/TCP/Software/feature_extract/Code/extractors/lcmodel_extractor.py:98-104 | the count is at most the number of indices, and 0 exactly for no indices |
| Runs.RunCountHalf | mltsp/TCP/Software/feature_extract/Code/extractors/lcmodel_extractor.py:98-104 | a length-N mask has at most ceil(N/2) maximal runs, floor(N/2) when its last entry is false |
| Runs.WhereEndsAtLast | mltsp/TCP/Software/feature_extract/Code/extractors/lcmodel_extractor.py:95-97 | the last index found is the last position exactly when the mask holds there |
| Runs.PassCount | mltsp/TCP/Software/feature_extract/Code/extractors/lcmodel_extractor.py:137-146 | the pass count is the number of maximal runs, 0 exactly when no index qualifies, at most the number of qualifying indices and at most ceil(N/2) |
| Thresholds.Linspace | mltsp/TCP/Software/feature_extract/Code/extractors/lcmodel_extractor.py:89-91 | `numpy.linspace`: num values from start to stop with a constant step |
| Thresholds.LinspaceBetween | mltsp/TCP/Software/feature_extract/Code/extractors/lcmodel_extractor.py:89-91 | every threshold lies between the two endpoints, in either order |
| Thresholds.ThreshList | mltsp/TCP/Software/feature_extract/Code/extractors/lcmodel_extractor.py:88-91 | twenty thresholds, from 0 to the maximum for 'pos' and from the minimum to 0 for 'neg' |
| Thresholds.PastMask | mltsp/TCP/Software/feature_extract/Code/extractors/lcmodel_extractor.py:94-97 | position i qualifies exactly when the model is above ('pos') or below ('neg') the threshold |
| Thresholds.NPassingMedian | mltsp/TCP/Software/feature_extract/Code/extractors/lcmodel_extractor.py:134-146 | the number of passes above 0 is the number of maximal runs above 0, 0 exactly when the model never rises above 0, at most ceil(N/2) |
| Thresholds.PassCounts | mltsp/TCP/Software/feature_extract/Code/extractors/lcmodel_extractor.py:92-104 | twenty counts, count k being the number of maximal runs past threshold k |
| Thresholds.MedianIndexFrom | mltsp/TCP/Software/feature_extract/Code/extractors/lcmodel_extractor.py:107-113 | continuing from index i with the running count, the scan stops at the first index whose running count reaches half the total |
| Thresholds.MedianIndex | mltsp/TCP/Software/feature_extract/Code/extractors/lcmodel_extractor.py:106-113 | the selection always stops, at the first index whose running count reaches half the total |
| Thresholds.MedianIndexUnique | mltsp/TCP/Software/feature_extract/Code/extractors/lcmodel_extractor.py:109-113 | only one index is the first to reach half the total |
| Thresholds.AllZeroPicksFirst | mltsp/TCP/Software/feature_extract/Code/extractors/lcmodel_extractor.py:106-113 | with all counts zero the first threshold is selected |
| Thresholds.SelectedCountPositive | mltsp/TCP/Software/feature_extract/Code/extractors/lcmodel_extractor.py:109-113 | when some pass exists the selected count is positive |
| Thresholds.DmagAtMedianThreshold | mltsp/TCP/Software/feature_extract/Code/extractors/lcmodel_extractor.py:85-131 | fails exactly on an empty curve; otherwise returns the threshold and count at the first index reaching half the total |
| Thresholds.PosFirstCountIsMedianCount | mltsp/TCP/Software/feature_extract/Code/extractors/lcmodel_extractor.py:88-104 | the 'pos' count at the first threshold, 0, equals `get_n_passing_median` |
| Thresholds.PosPassesExist | mltsp/TCP/Software/feature_extract/Code/extractors/lcmodel_extractor.py:93-104 | a model that rises above 0 has 'pos' passes |
| Thresholds.NegPassesExist | mltsp/TCP/Software/feature_extract/Code/extractors/lcmodel_extractor.py:93-104 | a model that falls below 0 has 'neg' passes |
| Thresholds.DmagInRange | mltsp/TCP/Software/feature_extract/Code/extractors/lcmodel_extractor.py:88-113 | the selected 'pos' threshold lies in [0, max], the 'neg' one in [min, 0] |
| Thresholds.DmagCountPositive | mltsp/TCP/Software/feature_extract/Code/extractors/lcmodel_extractor.py:109-131 | the reported count is positive whenever any pass exists |
| Area.Segments | mltsp/TCP/Software/feature_extract/Code/extractors/lcmodel_extractor.py:161-177 | segments exist exactly when indices do, and the last segment ends at the last index |
| Area.SegmentsPartition | mltsp/TCP/Software/feature_extract/Code/extractors/lcmodel_extractor.py:161-177 | the segments, concatenated, are the qualifying indices; each is a consecutive run and a gap separates neighbours |
| Area.SegmentsCount | mltsp/TCP/Software/feature_extract/Code/extractors/lcmodel_extractor.py:166-177 | the number of segments equals the `j_prev` pass count of the same indices |
| Area.SegmentsBounded | mltsp/TCP/Software/feature_extract/Code/extractors/lcmodel_extractor.py:161-177 | every index in a segment is a valid sample position |
| Area.GetArea | mltsp/TCP/Software/feature_extract/Code/extractors/lcmodel_extractor.py:149-180 | fails (`past_thresh[0]`) exactly when no sample is past 0 |
| Area.SegmentsAreaIsSteps | mltsp/TCP/Software/feature_extract/Code/extractors/lcmodel_extractor.py:172-179 | summing trapezoid rules over segments of two or more samples equals summing one trapezoid per pair of consecutive indices |
| Area.StepsOfWhere | mltsp/TCP/Software/feature_extract/Code/extractors/lcmodel_extractor.py:156-179 | over `numpy.where`'s indices those pairs are exactly the adjacent positions both past 0 |
| Area.GetAreaIsPairedArea | mltsp/TCP/Software/feature_extract/Code/extractors/lcmodel_extractor.py:156-180 | the area is the sum of trapezoids over adjacent samples both past 0; something is integrated exactly when such a pair exists |
| Area.NoPairNoArea | mltsp/TCP/Software/feature_extract/Code/extractors/lcmodel_extractor.py:172-179 | without an adjacent pair the area is 0 |
| Area.PairedAreaSign | mltsp/TCP/Software/feature_extract/Code/extractors/lcmodel_extractor.py:156-179 | over non-decreasing times each trapezoid above 0 is non-negative and each below 0 non-positive |
| Area.AreaSign | mltsp/TCP/Software/feature_extract/Code/extractors/lcmodel_extractor.py:149-180 | over non-decreasing times the 'pos' area is at least 0 and the 'neg' area at most 0 |
| Area.UnintegratedAreaIsZero | mltsp/TCP/Software/feature_extract/Code/extractors/lcmodel_extractor.py:160-180 | when no segment was integrated the area stays 0 |
| Sorting.InsertPerm | mltsp/TCP/Software/feature_extract/Code/extractors/lcmodel_extractor.py:242 | inserting one pair adds exactly that pair to the multiset of pairs |
| Sorting.InsertSorted | mltsp/TCP/Software/feature_extract/Code/extractors/lcmodel_extractor.py:242 | inserting into a list sorted in tuple order keeps it sorted |
| Sorting.Sort | mltsp/TCP/Software/feature_extract/Code/extractors/lcmodel_extractor.py:241-242 | the sorted pairs are a permutation of the input in tuple order |
| Sorting.SortedSamples | mltsp/TCP/Software/feature_extract/Code/extractors/lcmodel_extractor.py:241-245 | after sorting, `phs` is non-decreasing and `phs`, `mags` are permutations of X and Y |
| Gcv.Pad | mltsp/TCP/Software/feature_extract/Code/extractors/lcmodel_extractor.py:247-248 | the padded curve is the last min(ceil(w/2), N) magnitudes, then the curve itself, then its first min(floor(w/2)-1, N) magnitudes |
| Gcv.PadCircular | mltsp/TCP/Software/feature_extract/Code/extractors/lcmodel_extractor.py:247-248 | once the lead pad fits, the padded curve has N+w-1 samples and is the curve read circularly from ceil(w/2) before its start |
| Gcv.RollingWindow | mltsp/TCP/Software/feature_extract/Code/extractors/lcmodel_extractor.py:231-237 | fails exactly for a negative row count; otherwise row i is `b[i:i+w]` and there are len(b)-w+1 rows |
| Gcv.Residuals | mltsp/TCP/Software/feature_extract/Code/extractors/lcmodel_extractor.py:255 | defined exactly when the shapes broadcast; elementwise differences for equal lengths |
| Gcv.Leverage | mltsp/TCP/Software/feature_extract/Code/extractors/lcmodel_extractor.py:253 | 0 < Lii <= 1/2, so the divisor 1-Lii is positive |
| Gcv.Score | mltsp/TCP/Software/feature_extract/Code/extractors/lcmodel_extractor.py:246-256 | the score of a non-empty ordered curve exists exactly when the window and model shapes allow it, and is non-negative |
| Gcv.GCV | mltsp/TCP/Software/feature_extract/Code/extractors/lcmodel_extractor.py:239-256 | a score exists exactly when the curve is non-empty, the row count is non-negative and the model broadcasts; it is non-negative |
| Gcv.ModelIsCircularMean | mltsp/TCP/Software/feature_extract/Code/extractors/lcmodel_extractor.py:247-252 | once the lead pad fits, the model has N entries, entry i being the mean of the circular window starting ceil(w/2) before i |
| Gcv.ScoreIsCircular | mltsp/TCP/Software/feature_extract/Code/extractors/lcmodel_extractor.py:247-255 | the score is the leverage-corrected mean squared residual against the circular running mean |
| Gcv.GCVIsCircularScore | mltsp/TCP/Software/feature_extract/Code/extractors/lcmodel_extractor.py:239-256 | `GCV` is that circular score of the time-ordered magnitudes |
| Gcv.CandidateDefined | mltsp/TCP/Software/feature_extract/Code/extractors/lcmodel_extractor.py:243-252 | for an even window of at least 10, a score exists exactly when N >= w/2 or 3N = w |
| Gcv.Windows | mltsp/TCP/Software/feature_extract/Code/extractors/lcmodel_extractor.py:258-260 | the twenty candidates 10, 12, …, 48 |
| Gcv.Scores | mltsp/TCP/Software/feature_extract/Code/extractors/lcmodel_extractor.py:261 | the list of scores fails exactly when one score fails, and otherwise holds each window's score |
| Gcv.ArgMin | mltsp/TCP/Software/feature_extract/Code/extractors/lcmodel_extractor.py:263 | the first index of a least element |
| Gcv.MinimizeOver | mltsp/TCP/Software/feature_extract/Code/extractors/lcmodel_extractor.py:261-264 | fails exactly when a score fails; otherwise the least score, attained at a window no earlier window ties |
| Gcv.MinimizeGCV | mltsp/TCP/Software/feature_extract/Code/extractors/lcmodel_extractor.py:258-264 | the same over the candidates, with the window between 10 and 48 |
| Gcv.MinimizeGCVDefined | mltsp/TCP/Software/feature_extract/Code/extractors/lcmodel_extractor.py:258-264 | window selection succeeds exactly for curves of at least 24 samples |
| Kernel.WrappedDistance | mltsp/TCP/Software/feature_extract/Code/extractors/lcmodel_extractor.py:274-276 | the folded distance is at most 1/2, and 0 from a sample to itself |
| Kernel.WrappedDistanceOnPhases | mltsp/TCP/Software/feature_extract/Code/extractors/lcmodel_extractor.py:274-276 | on phases in [0, 1) the folded distance is symmetric and lies in [0, 1/2] |
| Kernel.RawTimesWrapNegative | mltsp/TCP/Software/feature_extract/Code/extractors/lcmodel_extractor.py:274-276 | on raw times the folded distance is negative exactly when the two samples are more than one unit apart |
| Kernel.RawWeights | mltsp/TCP/Software/feature_extract/Code/extractors/lcmodel_extractor.py:278-281 | kernel values are kept exactly for `l < 4` and are positive there, zero elsewhere |
| Kernel.RowWeights | mltsp/TCP/Software/feature_extract/Code/extractors/lcmodel_extractor.py:278-283 | each row of the smoothing matrix is non-negative, positive exactly within four bandwidths, and sums to 1 |
| Kernel.WeightedAverage | mltsp/TCP/Software/feature_extract/Code/extractors/lcmodel_extractor.py:283-285 | the smoothed value lies between the least and greatest magnitude |
| Kernel.KernelSmooth | mltsp/TCP/Software/feature_extract/Code/extractors/lcmodel_extractor.py:269-285 | one smoothed value per magnitude, each between the least and greatest magnitude |
| Kernel.RowIsNormalisedKernel | mltsp/TCP/Software/feature_extract/Code/extractors/lcmodel_extractor.py:278-283 | row i of the smoothing matrix is row i of the kept kernel values divided by their sum, which is positive |
| Kernel.SmoothIsKernelRatio | mltsp/TCP/Software/feature_extract/Code/extractors/lcmodel_extractor.py:278-285 | the smoothed value at i is the kernel-weighted sum of the magnitudes over the positive sum of the kernel values, `L = K / sum(K)` applied to Y |
| Kernel.SmoothShift | mltsp/TCP/Software/feature_extract/Code/extractors/lcmodel_extractor.py:269-285 | shifting every magnitude by c shifts every smoothed value by c |
| Kernel.SmoothConstant | mltsp/TCP/Software/feature_extract/Code/extractors/lcmodel_extractor.py:269-285 | a constant curve is its own smooth |
| Kernel.Bandwidth | mltsp/TCP/Software/feature_extract/Code/extractors/lcmodel_extractor.py:193 | the bandwidth times N is 500 times the window, positive for a positive window |
| Peaks.InteriorMask | mltsp/TCP/Software/feature_extract/Code/extractors/lcmodel_extractor.py:289-292 | entry k is true exactly when sample k+1 exceeds both neighbours |
| Peaks.FindPeaks | mltsp/TCP/Software/feature_extract/Code/extractors/lcmodel_extractor.py:287-292 | the result holds exactly the interior samples above both neighbours, in ascending order |
| Peaks.PeaksNotAdjacent | mltsp/TCP/Software/feature_extract/Code/extractors/lcmodel_extractor.py:287-292 | two peaks are at least two samples apart |
| LcModel.NumpyDiv | mltsp/TCP/Software/feature_extract/Code/extractors/lcmodel_extractor.py:213-218 | numpy division: non-finite exactly for a zero denominator, otherwise the quotient |
| LcModel.NormalizedModel | mltsp/TCP/Software/feature_extract/Code/extractors/lcmodel_extractor.py:192-197 | exists exactly for curves of at least 24 samples, one value per sample, each within [min m - median, max m - median] |
| LcModel.Normalize | mltsp/TCP/Software/feature_extract/Code/extractors/lcmodel_extractor.py:193-197 | one value per sample, within [min m - median, max m - median] |
| LcModel.NormalizeCommutes | mltsp/TCP/Software/feature_extract/Code/extractors/lcmodel_extractor.py:194-197 | subtracting the median before smoothing gives the same normalised model |
| LcModel.NormalizeBeforeSmoothing | mltsp/TCP/Software/feature_extract/Code/extractors/lcmodel_extractor.py:192-197 | the normalised model is the smooth of the median-subtracted magnitudes at the selected bandwidth |
| LcModel.MeasuresOf | mltsp/TCP/Software/feature_extract/Code/extractors/lcmodel_extractor.py:199-211 | the measures exist exactly when the model rises above and falls below 0 |
| LcModel.Assemble | mltsp/TCP/Software/feature_extract/Code/extractors/lcmodel_extractor.py:213-219 | the dictionary fails exactly when neither area was integrated (`0./0.` on Python floats) |
| LcModel.Compute | mltsp/TCP/Software/feature_extract/Code/extractors/lcmodel_extractor.py:186-219 | a result implies at least 24 samples and is the features of the normalised model |
| LcModel.Extract | mltsp/TCP/Software/feature_extract/Code/extractors/lcmodel_extractor.py:183-222 | the dictionary is empty exactly when the computation raised, and otherwise has exactly the six keys |
| LcModel.FeatureMap | mltsp/TCP/Software/feature_extract/Code/extractors/lcmodel_extractor.py:213-219 | a filled-in dictionary has exactly the six keys |
| LcModel.FeatureMapFields | mltsp/TCP/Software/feature_extract/Code/extractors/lcmodel_extractor.py:213-219 | each key holds its own feature |
| LcModel.Lookup | mltsp/TCP/Software/feature_extract/Code/extractors/lcmodel_extractor.py:305-306 | `dict.get(key, 0.0)` |
| LcModel.PosMagRatio | mltsp/TCP/Software/feature_extract/Code/extractors/lcmodel_extractor.py:304-306 | reports the `pos_mag_ratio` entry of a filled-in dictionary, and 0.0 from the empty dictionary a failed `extract` leaves |
| LcModel.PosNRatio | mltsp/TCP/Software/feature_extract/Code/extractors/lcmodel_extractor.py:317-319 | reports the `pos_n_ratio` entry of a filled-in dictionary, and 0.0 from the empty dictionary a failed `extract` leaves |
| LcModel.MedianNPerDay | mltsp/TCP/Software/feature_extract/Code/extractors/lcmodel_extractor.py:330-332 | reports the `median_n_per_day` entry of a filled-in dictionary, and 0.0 from the empty dictionary a failed `extract` leaves |
| LcModel.PosNPerDay | mltsp/TCP/Software/feature_extract/Code/extractors/lcmodel_extractor.py:343-345 | reports the `pos_n_per_day` entry of a filled-in dictionary, and 0.0 from the empty dictionary a failed `extract` leaves |
| LcModel.NegNPerDay | mltsp/TCP/Software/feature_extract/Code/extractors/lcmodel_extractor.py:356-358 | reports the `neg_n_per_day` entry of a filled-in dictionary, and 0.0 from the empty dictionary a failed `extract` leaves |
| LcModel.PosAreaRatio | mltsp/TCP/Software/feature_extract/Code/extractors/lcmodel_extractor.py:369-371 | reports the `pos_area_ratio` entry of a filled-in dictionary, and 0.0 from the empty dictionary a failed `extract` leaves |
| LcModel.AccessorsReadFeatures | mltsp/TCP/Software/feature_extract/Code/extractors/lcmodel_extractor.py:295-371 | each of the six accessors reports its computed feature, or 0.0 when `extract` raised |
| LcModel.FeaturesOf | mltsp/TCP/Software/feature_extract/Code/extractors/lcmodel_extractor.py:199-219 | on a normalised model, `extract` raises exactly when the model never rises above 0, never falls below 0, or has no adjacent pair to integrate on either side |
| LcModel.MeasuredFeaturesFail | mltsp/TCP/Software/feature_extract/Code/extractors/lcmodel_extractor.py:207-221 | once the model crosses 0 on both sides, `extract` raises exactly when neither side has two adjacent samples past 0, i.e. when `pos_area_ratio` divides the Python float 0. by 0. |
| LcModel.ComputeFailsIff | mltsp/TCP/Software/feature_extract/Code/extractors/lcmodel_extractor.py:186-221 | `extract` raises exactly for fewer than 24 samples or for one of those reasons |
| LcModel.ShortCurveHasNoFeatures | mltsp/TCP/Software/feature_extract/Code/extractors/lcmodel_extractor.py:186-222 | a curve of fewer than 24 samples gives the empty dictionary and every accessor reports 0.0 |
| LcModel.MeasuresFacts | mltsp/TCP/Software/feature_extract/Code/extractors/lcmodel_extractor.py:199-211 | both selected counts are positive, the 'pos' threshold is at least 0 and the 'neg' one at most 0, the time span is non-negative, and the areas have their signs over non-decreasing times |
| LcModel.AssembleRanges | mltsp/TCP/Software/feature_extract/Code/extractors/lcmodel_extractor.py:213-218 | from those facts: `pos_n_ratio` is in (0, 1); `pos_mag_ratio` and `pos_area_ratio` are in [0, 1] when finite; the rates are non-finite exactly for a zero time span and otherwise non-negative |
| LcModel.RatiosInUnitInterval | mltsp/TCP/Software/feature_extract/Code/extractors/lcmodel_extractor.py:213-214 | whenever features exist `pos_n_ratio` is a finite proper fraction and a finite `pos_mag_ratio` lies in [0, 1] |
| LcModel.PosAreaRatioInUnitInterval | mltsp/TCP/Software/feature_extract/Code/extractors/lcmodel_extractor.py:218 | over non-decreasing times a finite `pos_area_ratio` lies in [0, 1] |
| LcModel.PerDayRates | mltsp/TCP/Software/feature_extract/Code/extractors/lcmodel_extractor.py:211-217 | the three per-day rates are non-finite exactly when max(t) = min(t), and otherwise non-negative |

## Left out

- `debug_compare_gp_and_shivv_models` and the commented-out plotting: sklearn, matplotlib and file output.
- `fold`: never called by `extract`.
- `GaussianKernel`: `exp` and `sqrt` are not modelled. The kernel is a parameter assumed positive, so the `diags` list (only used for `numpy.max` of each row) is dropped.
- `numpy.median`: the median of the raw magnitudes is the input `mMedian`.
- `scipy.integrate.trapz`: written out as the sum of trapezoids.
- Floating point: values are exact reals. Rounding, and nan/inf propagation beyond a division by zero, are not modelled.
- Gcv.GCV: windows below 2 are excluded by its precondition. The source never passes them (its candidates are 10 to 48), and window 1 divides 0 by 0.
- Kernel.KernelSmooth: requires a non-zero bandwidth. With bandwidth 0 the source's behaviour depends on nan/inf arithmetic, and `extract` always passes 500·w/N > 0.
- LcModel.Extract: takes times and magnitudes of equal length, as the feature framework supplies them. `zip` truncation on unequal lengths is not modelled.
- The `FeatureExtractor`/`InterExtractor` framework, the `properties` cache and the class flags `active`, `internal_use_only`, `extname`: plumbing outside the extractor.
- Under Python 3, `window/2` is a float and the slice raises `TypeError`. The model follows the Python 2 semantics the code was written for.
- The `Featureset` container and its tests: an xarray wrapper with file loading, unrelated to this extractor.
