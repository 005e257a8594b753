# Reaction-time analysis: a verified model of its table logic

The analysis script of a visual-stimulus reaction-time experiment reads a wide
table with one row per participant. Each row has a `(time, no_target)` column
pair for each of the 20 stimuli. The script reshapes that table into a long
table, then works on two parts of it:

- **No-target trials.** It computes the excess delay beyond the 20-second
  window. It drops negative excess delays as invalid and reports count,
  maximum and mean. It counts the delays in six half-open ranges, from
  `<1ms` to `>50ms`.
- **Target-present trials.** It groups them per stimulus and by the
  inclusive stimulus ranges 1–5, 6–10, 11–15 and 16–20. It reports a mean
  for each group and each range.

From the per-participant JSON logs, it collects `(distractor count, reaction
time)` pairs for the stimulus ranges 1–5 and 11–15. A range with no pairs is
skipped.

The model keeps the source's structure:

- `Tables` holds the records and the constant of 20 stimulus slots.
- `LongFormat` is the reshape loop. The `Reshape` method is proved against
  the specification function `Melt`.
- `Select` is boolean-mask row selection (`df[mask]`). It is used for every
  `df[mask]` selection in the script.
- `Aggregates` holds `sum`, `mean` and `max` over a column of reals. An empty
  column has no mean and no maximum; this stands for pandas' NaN.
- `DelayBins` models `pd.cut(..., right=False)` as a search over the seven
  bin edges (the last is infinity). It also models
  `value_counts().reindex(labels, fill_value=0)`.
- `NoTargetDelays` covers the no-target analysis from the selection to the
  range counts.
- `TargetPresent` covers the target-present selection, `groupby("stimulus")`,
  `between`, the trend view, range comparisons and the per-range loop.
- `Correlation` covers the nested loop that fills `all_corr_data` and the
  outer loop over the two ranges.

Times are exact `real`s, in seconds.

## Model

| member | source | states |
|---|---|---|
| `Select.Filter` | analyse_results.py:27-35 | a row is selected exactly when it is in the table and the mask holds; the result is no longer than the table |
| `Select.FilterConcat` | analyse_results.py:76 | selection keeps the table's order: selecting from a concatenation concatenates the selections |
| `Select.FilterKeepsAll` | analyse_results.py:32-35 | a mask that holds on every row selects the whole table unchanged |
| `Select.FilterKeepsNone` | analyse_results.py:93 | a mask that holds on no row selects nothing |
| `Select.FilterTwice` | analyse_results.py:93 | selecting with one mask and then another equals selecting with their conjunction |
| `Select.FilterPartition` | analyse_results.py:31-35 | two complementary masks split a table: the multisets of the two selections add up to the table's, and so do their lengths |
| `Aggregates.Mean` | analyse_results.py:39 | the mean is absent exactly for an empty column; otherwise it times the row count equals the column sum |
| `Aggregates.Max` | analyse_results.py:38 | the maximum is absent exactly for an empty column; otherwise it is at least every value and equals one of them |
| `Aggregates.SumBounds` | analyse_results.py:39 | n values in [lo, hi] sum to a value in [n·lo, n·hi] |
| `Aggregates.MeanWithinBounds` | analyse_results.py:38-39 | the mean of a non-empty column whose values are at least lo lies between lo and the maximum |
| `LongFormat.MeltLayout` | analyse_results.py:18-24 | after n stimuli, the long table has n·P rows, and row q is stimulus q / P + 1 of wide row q % P (stimulus-major, participant order within a stimulus) |
| `LongFormat.RowOfPair` | analyse_results.py:20-23 | the row for (wide row j, stimulus i) sits at index (i−1)·P + j and carries that participant, `stimulus_i_time` and `stimulus_i_no_target` |
| `LongFormat.PairIsUnique` | analyse_results.py:20-23 | with distinct participant numbers, any long row carrying participant j's number and stimulus i is at index (i−1)·P + j |
| `LongFormat.MeltStimuli` | analyse_results.py:20-23 | every row of the long table carries a stimulus number 1..n, so the reshaped table has only stimuli 1..20 |
| `LongFormat.Reshape` | analyse_results.py:18-24 | the loop that appends the frame of each stimulus 1..20 yields `Melt` of all 20: 20·P rows with the index layout above |
| `DelayBins.EdgesAtMostIsPrefix` | analyse_results.py:55 | on ascending edges, the edges at most x form a prefix, so counting them locates x's bin |
| `DelayBins.EdgesAscending` | analyse_results.py:51 | the edges `[0, 0.001, 0.005, 0.010, 0.025, 0.050, inf]` ascend strictly |
| `DelayBins.Cut` | analyse_results.py:51-55 | the assigned bin i satisfies edge_i ≤ x < edge_{i+1}; every bin containing x is the assigned one; no bin is assigned exactly when x < 0 |
| `DelayBins.ExactlyOneBin` | analyse_results.py:51-55 | every non-negative delay lies in one bin and in no second one |
| `DelayBins.Tally` | analyse_results.py:58 | a one-pass count yields six counts, and count i is the number of delays in bin i |
| `DelayBins.SumNatIncrement` | analyse_results.py:58 | adding one to a count adds one to the counts' total |
| `DelayBins.TallyTotal` | analyse_results.py:58 | when no delay is negative, the six counts add up to the number of delays |
| `DelayBins.DelayCounts` | analyse_results.py:52-58 | the table has the six labels in fixed order; each count is the number of delays in that bin; a count is 0 exactly when no delay lies in that bin |
| `DelayBins.DelayCountsTotal` | analyse_results.py:41-58 | when no delay is negative, the counts of the label table add up to the number of delays |
| `NoTargetDelays.NoTargetFrame` | analyse_results.py:27-28 | one delay row per no-target row, in table order: row k is the k-th no-target row with its excess added; a delay row is present exactly when its row is a no-target row of the long table and its excess is reaction_time − 20.0 |
| `NoTargetDelays.DropInvalid` | analyse_results.py:31-35 | the guarded filter equals filtering on `excess_delay >= 0` whether or not the guard fires; the table is unchanged when no row is invalid; kept rows and invalid rows together make up the input multiset |
| `NoTargetDelays.Statistics` | analyse_results.py:38-41 | `count_total` is the number of valid rows; with no rows, max and mean are absent; otherwise max is at least every valid excess and is attained, the mean is the sum of the valid excess delays divided by `count_total`, and 0 ≤ mean ≤ max |
| `NoTargetDelays.AnalyseNoTarget` | analyse_results.py:27-58 | the valid rows are exactly the no-target rows with excess ≥ 0, and the invalid rows exactly those with excess < 0, each in table order; together they make up the no-target rows as a multiset, repeats included; the statistics are those of the valid rows; the range table has the fixed labels, counts only valid rows, and its counts add up to `count_total` |
| `NoTargetDelays.TwoParticipantExample` | analyse_results.py:27-58 | at stimulus 3, reaction 19.999 s is invalid and excluded; 20.007 s leaves 7 ms excess, counted in `5–10ms` and in no other range |
| `NoTargetDelays.NoTargetRowsOfMelt` | analyse_results.py:18-27 | when stimulus s is every participant's only no-target stimulus, the no-target rows of the reshaped table are exactly stimulus s's frame, in participant order |
| `NoTargetDelays.TwoParticipantWideExample` | analyse_results.py:18-58 | from a wide table of two participants, stimulus 3 left at 20.007 s and at 19.999 s: after the reshape, the first is one valid 7 ms excess in `5–10ms` and the second is the one invalid row |
| `TargetPresent.TrialKindsPartition` | analyse_results.py:76 | the no-target and target-present selections split the long table (multisets and lengths) |
| `TargetPresent.BetweenMembers` | analyse_results.py:93 | `between(lo, hi)` selects a row exactly when lo ≤ stimulus ≤ hi, both ends included |
| `TargetPresent.SplitRange` | analyse_results.py:110-111 | cutting lo..hi after mid splits that range's rows into the rows of lo..mid and of mid+1..hi |
| `TargetPresent.RangesPartition` | analyse_results.py:167-180 | on a table with stimuli 1..20, ranges 1–5, 6–10, 11–15 and 16–20 partition it: their subsets' multisets and lengths add up to the table's |
| `TargetPresent.ReshapedRangesPartition` | analyse_results.py:167-180 | the four ranges partition the target-present rows of the reshaped table |
| `TargetPresent.GroupsAreStimulusGroups` | analyse_results.py:79 | each group holds the reaction times of exactly its stimulus's rows and is non-empty; stimuli ascend; every stimulus present in the span has a group |
| `TargetPresent.StimulusStats` | analyse_results.py:79 | one entry per stimulus 1..20 that occurs, in ascending order; each entry's mean is the mean of exactly that stimulus's reaction times |
| `TargetPresent.BetweenNested` | analyse_results.py:93 | selecting a range, then one stimulus, equals selecting that stimulus if it lies in the range, and nothing otherwise |
| `TargetPresent.TrendIsRestriction` | analyse_results.py:92-94 | grouping the rows of start..end per stimulus gives exactly the table's per-stimulus groups for the stimuli in start..end |
| `TargetPresent.RangeMean` | analyse_results.py:109-114 | a range's mean is absent exactly when no row's stimulus is in the range; otherwise it times the subset's size equals the subset's reaction-time sum |
| `TargetPresent.CompareRanges` | analyse_results.py:109-115 | for each of the two ranges, the mean is absent exactly when no row lies in that range; otherwise it times the subset's size equals the subset's reaction-time sum |
| `TargetPresent.RangeStatistics` | analyse_results.py:173-180 | the loop yields one row per range, in order, with the range's label and the mean of exactly the rows in that inclusive range |
| `Correlation.LogPointsMembers` | analyse_results.py:141-148 | a point comes from a participant's log exactly when its entry has lo ≤ stimulus_number ≤ hi and not no_target |
| `Correlation.LogPointsConcat` | analyse_results.py:141-148 | a log's points come out in log order: the points of two runs of entries are the first run's, then the second's |
| `Correlation.CorrelationDataMembers` | analyse_results.py:137-148 | a point is collected exactly when some file has a selected entry that produces it |
| `Correlation.CorrelationDataConcat` | analyse_results.py:137-148 | points come out file by file: the points of two runs of files are the first run's, then the second's |
| `Correlation.CollectCorrelationData` | analyse_results.py:135-148 | the nested loop collects `CorrelationData`: file order, then log order, selected entries only |
| `Correlation.CorrelationAnalysis` | analyse_results.py:135-152 | one input per range (1–5, then 11–15), with its label; a range is skipped exactly when it has no pairs; otherwise the correlation gets the distractor-count and reaction-time columns of the collected points, in order |

## Left out

- Plotting with matplotlib and seaborn is presentation only. Every chart and its file are left out.
- File and console I/O is left out: the results directory, reading the CSV, globbing and parsing the JSON files, the warning and statistics printouts, and writing the CSVs. The inputs are parameters holding already-parsed records, and `CorrelationAnalysis` takes the JSON files in the order the glob returned them. A CSV that cannot be read aborts the run before any modelled step. The JSON logs are opened and parsed inside the correlation loop (lines 138-139). A malformed log therefore aborts the run during the first correlation range. This happens after the reshape, the no-target analysis and the target-present statistics, and before the per-range loop (lines 173-180) and both CSV writes. The model does not capture this ordering of effects. `RangeStatistics` is modelled as if it always runs.
- The sample standard deviation (line 40) and `scipy.stats.pearsonr` (line 152) are library floating-point numerics. The model ends at the two columns handed to `pearsonr`. `pearsonr` raises when fewer than two pairs reach it, so a range with exactly one pair aborts the run there. `CorrelationAnalysis` does not model that abort.
- Medians (lines 79, 94, 114, 179) are library behaviour. The model states which rows each median would see, the same rows as each mean, but does not compute medians.
- Floating point is not modelled. Times are exact reals, so `reaction_time - 20.0` does not round. Near a bin edge, IEEE subtraction could put a delay in the neighbouring bin.
- NaN and infinite values are not modelled. A NaN excess delay is dropped by the `excess_delay >= 0` filter (line 35) when that filter runs, which is when at least one row is negative. When no row is negative, the guard at line 32 skips the filter. A NaN row then survives: it is counted in `count_total` (line 41) but falls in no bin (lines 55-58). This is the only case in which the guard is observable.
- `DropInvalid`, `DelayCountsTotal` and `AnalyseNoTarget`: their contracts hold only for NaN-free delays. Without NaN, filtering and not filtering agree whenever the guard skips, and the range counts add up to `count_total`. With a NaN row that survives, the range counts fall short of `count_total`.
- An excess equal to `inf` falls outside every bin. `Cut` still has the `inf` edge and the matching branch of the search.
- A wide table missing a stimulus column is a schema error that aborts the run. `Reshape` and `Melt` require every row to have at least 20 column pairs.
- `StimulusStats`: groups only the stimuli 1..20, not every distinct key `groupby` would form. Tables built by the reshape carry only these.
- `RangesPartition`: assumes every stimulus lies in 1..20. `MeltStimuli` proves that the reshape produces only these, and `ReshapedRangesPartition` applies the partition to the reshaped table.
