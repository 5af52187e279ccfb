# IntroPsych study pipeline, modelled in Dafny

This project models the data pipeline of an introductory-psychology
calibration study in Dafny 4.11, and proves properties of the model.
Each participant answers N questions and rates their confidence in each answer from 1 to 7.
The pipeline runs in five steps:

- `load_and_combine` stacks the control (CG) and experimental (EG) sheets.
  Each sheet keeps only the rows with a real timestamp, and each row is tagged with its group.
- `tidy_columns` reduces the wide survey export to `participant, group,
  correct_1..N, conf_1..N`.
- `add_question_scores` turns each rating into a probability `p_i`.
  It then scores each answer with the Augmented Brier Score (`abs_i`) and a confidence-weighted score (`cws_i`).
- `add_summary_scores` adds the participant totals `total_correct`, `accuracy`, `mean_conf`, `total_abs` and `total_cws`.
- `group_descriptives` and `independent_t` compare the two groups.

How the model represents the data:

- **Tables.** A table is a `Frame`: distinct column names plus rows keyed by them.
  A cell is `Missing` (pandas' NaN/NaT), `Num(real)` or `Text(string)`.
  Arithmetic is exact real arithmetic.
- **Assignment.** Writing a column (`df[c] = ...`) overwrites a column that is already there.
  Otherwise the new column is appended at the end.
- **Errors.** The exceptions the code can raise are `Result` failures:
  - `KeyError` is `MissingColumn`;
  - `TypeError` from arithmetic on text is `NotNumeric`;
  - `IndexError` on an empty list of score columns is `NoScoreColumns`.
- **Parameters.** Three things are parameters of the model rather than fixed functions:
  - reading a text cell as a number (`pd.to_numeric(..., errors="coerce")`);
  - deciding whether a cell is a date (`pd.to_datetime(..., errors="coerce")`);
  - rendering a cell as text (`astype(str)`).

Modules, one per concern:

- `Wrappers`: `Option`, `Result`, `Outcome`.
- `Seqs`: `Filter`, `Zip`, distinctness, order.
- `Strings`: `startswith`, `endswith`, `in`, `str(int)`.
- `Reduce`: missing-skipping sum and mean.
- `Frames`: tables, cells, column assignment.
- `Scoring`: `src/scoring.py` up to `add_question_scores`.
- `Summary`: `add_summary_scores`.
- `Cleaning`: `tidy_columns`.
- `Combine`: `load_and_combine`.
- `Pipeline`: `make_processed`.
- `Stats`: `src/stats.py`.

The column order after scoring follows the code: `p_1, abs_1, cws_1, p_2, ...`, interleaved question by question, because each question's columns are appended in turn.
The docstring's grouping of "p_i, abs_i, cws_i" describes the names only, not their order.

## Model

| member | source | states |
|---|---|---|
| Scoring.ConfidenceToProb | src/scoring.py:5-10 | the map is affine with `6p + 1 = c`; c lies in [1, 7] exactly when p lies in [0, 1] |
| Scoring.ConfidenceToProbScale | src/scoring.py:5-10 | 1 maps to 0, 7 to 1 and 4 to 0.5; a step of 6 in the rating is a step of 1 in p; ratings outside the scale extrapolate (no clamping) |
| Scoring.AugmentedBrier | src/scoring.py:15-23 | for y = 0 ABS is `1 - p^2`; for y = 1 it is `1.5 - (1 - p)^2` |
| Scoring.AugmentedBrierRange | src/scoring.py:15-23 | for p in [0, 1], a wrong answer scores in [0, 1] and a correct one in [0.5, 1.5] |
| Scoring.AugmentedBrierMonotone | src/scoring.py:15-23 | more confidence lowers the ABS of a wrong answer and raises that of a correct one |
| Scoring.AugmentedBrierIsProper | src/scoring.py:15-23 | reporting p instead of one's true chance q of being right costs exactly `(p - q)^2` in expected ABS |
| Scoring.ConfidenceWeighted | src/scoring.py:28-41 | CWS is `0.6 + 0.4p` for a correct answer and `0.4 - 0.4p` for a wrong one |
| Scoring.ConfidenceWeightedRange | src/scoring.py:32-33 | for p in [0, 1], correct answers score in [0.6, 1.0] and wrong ones in [0.0, 0.4] |
| Scoring.CorrectBeatsWrong | src/scoring.py:35-37 | any correct answer outscores any wrong answer, whatever the two confidences |
| Scoring.ConfidenceWeightedOrdering | src/scoring.py:35-37 | the four corners: confident-correct 1.0 > guessed-correct 0.6 > unconfident-wrong 0.4 > confident-wrong 0.0 |
| Scoring.ProbCell | src/scoring.py:68 | `p_i` is present exactly when `conf_i` is present, and then `6p + 1 = conf` |
| Scoring.AbsCell | src/scoring.py:71 | `abs_i` is present exactly when both p and correctness are present (NaN propagates) |
| Scoring.CwsCell | src/scoring.py:73 | `cws_i` is present exactly when both p and correctness are present |
| Scoring.ScoreQuestion | src/scoring.py:64-73 | one loop iteration succeeds exactly when `conf_i`, and `correct_i` when a score is wanted, exist and hold no text |
| Scoring.ScoreQuestionSpec | src/scoring.py:68-73 | one iteration writes `p_i`, `abs_i` only under `use_abs` and `cws_i` only under `use_cws`, each from that question's own cells |
| Scoring.AddQuestionScoresSucceeds | src/scoring.py:63-73 | `add_question_scores` raises exactly when some question's inputs are missing or hold text |
| Scoring.AddQuestionScoresNames | src/scoring.py:63-73 | the columns after scoring are the input columns followed by the new `p_i`/`abs_i`/`cws_i`, question by question |
| Scoring.AddQuestionScoresUntouched | src/scoring.py:63-75 | every cell outside the written columns is unchanged |
| Scoring.AddQuestionScoresRows | src/scoring.py:63-73 | in every row, each derived cell is computed from that question's cells only, so a missing input affects only its own question |
| Scoring.AddQuestionScoresSpec | src/scoring.py:63-75 | names, untouched cells and per-question values of `add_question_scores`, together |
| Scoring.ScoreNamesDistinct | src/scoring.py:64-73 | no derived column name is written by two different questions |
| Scoring.AddQuestionScoresIdempotent | src/scoring.py:68-73 | scoring an already scored table gives back the same table |
| Summary.SkipnaMatchesReference | src/scoring.py:98-108 | pandas' missing-skipping row sum equals a cell-by-cell total with missing as 0, and the number of values it keeps is the number of present cells |
| Summary.TotalCountsOnes | src/scoring.py:98 | when every correctness cell is 0, 1 or missing, the total is the number of ones |
| Summary.Ratio | src/scoring.py:99-100 | a ratio is undefined exactly for a zero count and otherwise times the count gives the total |
| Summary.RowMean | src/scoring.py:100 | the row mean is the ratio of the present values' total to their count; it is undefined when all are missing |
| Summary.AddSummaryScores | src/scoring.py:95-108 | the totals succeed exactly when every input column exists and holds no text; a failure names a failing column of the first column list that fails |
| Summary.AddSummaryScoresSpec | src/scoring.py:98-108 | the five totals are appended; `total_correct`/`total_abs`/`total_cws` are missing-skipping sums, `accuracy = total_correct / N`, `mean_conf` the missing-skipping mean, the last two only under their flags; all other cells are unchanged |
| Summary.CorrectRanges | src/scoring.py:98-99 | with 0/1 correctness, `total_correct` is the number of correct answers, between 0 and N, and `accuracy` lies in [0, 1] |
| Summary.ConfRange | src/scoring.py:100 | with ratings in [1, 7], `mean_conf` is in [1, 7] |
| Summary.ScoreTotalRanges | src/scoring.py:102-108 | with per-question scores in range, `total_abs` is in [0, 1.5N] and `total_cws` in [0, N] |
| Summary.AddSummaryScoresIdempotent | src/scoring.py:95-108 | recomputing the totals of a table that already has them changes nothing |
| Cleaning.DiscoveredColumns | src/cleaning.py:42-47 | the score (confidence) columns are exactly the columns ending in `[Score]` (starting with `How confident`), without repeats and in left-to-right order, so the sort by position is the identity |
| Cleaning.ChooseNameSource | src/cleaning.py:60-67 | the participant identifier comes from the first column containing `What is your name`, else from `Timestamp` as text, else from the row number |
| Cleaning.Coerce | src/cleaning.py:76-77 | a coerced cell never holds text and is a number exactly when the cell reads as one |
| Cleaning.Pairs | src/cleaning.py:75 | question i pairs the i-th score column with the i-th confidence column, truncated to the shorter list |
| Cleaning.TidyColumns | src/cleaning.py:34-89 | fails on no score columns, then on a missing `group`, then on fewer than N pairs (the projection names `correct_{m+1}`); otherwise gives exactly the columns `participant, group, correct_1..N, conf_1..N` and raises each count warning exactly when that count differs from N |
| Cleaning.SurvivorsExact | src/cleaning.py:55-57 | a row survives exactly when its first score cell reads as a number, and the survivors are the input rows at the kept positions, in their original order |
| Cleaning.TidyColumnsSpec | src/cleaning.py:55-87 | output row k is built from the k-th surviving row |
| Cleaning.TidyRowHead | src/cleaning.py:60-73 | `group` is copied; `participant` is the name cell, the rendered timestamp, or k + 1, by the fallback chain |
| Cleaning.TidyRowPair | src/cleaning.py:75-77 | `correct_i` and `conf_i` are the coerced cells of the i-th score and confidence columns |
| Cleaning.TidyFirstCorrectPresent | src/cleaning.py:55-57 | for N >= 1, every output row has a number in `correct_1` |
| Cleaning.TidyColumnsNumeric | src/cleaning.py:75-87 | every `correct_i` and `conf_i` output column is free of text |
| Combine.DatedRowsSpec | src/cleaning.py:22-25 | a row is kept exactly when the sheet has no `Timestamp` column or its timestamp is present and reads as a date; kept rows stay in their original order |
| Combine.MissingTimestampDropped | src/cleaning.py:23-25 | whatever the date parser, a row whose `Timestamp` is missing never survives the filter |
| Combine.TagSheet | src/cleaning.py:19-27 | every row of a tagged sheet has its sheet's code in `group` and otherwise the cells of its surviving row |
| Combine.Concat | src/cleaning.py:30 | stacking keeps the first sheet's columns in front and unites the column sets; the first sheet's rows come first, then the second's, each with its own cells and missing cells for the other sheet's columns |
| Combine.LoadAndCombineShape | src/cleaning.py:19-30 | the combined table has the columns of both sheets plus `group` and as many rows as survive in both |
| Combine.LoadAndCombineControl | src/cleaning.py:19-30 | the surviving CG rows come first, tagged "CG", with their own cells and missing cells for columns only the EG sheet has |
| Combine.LoadAndCombineExperiment | src/cleaning.py:19-30 | the surviving EG rows follow all CG rows, tagged "EG", with their own cells and missing cells for columns only the CG sheet has |
| Pipeline.MakeProcessedSucceeds | src/cleaning.py:101-106 | the pipeline fails exactly when `tidy_columns` fails: scoring and totals always find their inputs |
| Pipeline.MakeProcessedNames | src/cleaning.py:101-106 | the processed columns are `participant, group, correct_1..N, conf_1..N`, then `p_i, abs_i, cws_i` per question, then the five totals |
| Pipeline.ScoredCellsInRange | src/scoring.py:68-73 | on the survey's scales every ABS cell lies in [0, 1.5] and every CWS cell in [0, 1] |
| Pipeline.MakeProcessedRanges | src/cleaning.py:101-106 | for a participant whose answers are on the survey's scales, every score cell and every total of the processed row lies in its range |
| Stats.SampleVariance | src/stats.py:20 | the variance uses the n - 1 divisor, is undefined below two values and is never negative |
| Stats.ConstantVariance | src/stats.py:19-20 | a sample whose values all agree has that value as mean and variance 0 |
| Stats.ShiftInvariance | src/stats.py:19-20 | adding a constant moves the mean by it and leaves the variance unchanged |
| Stats.Describe | src/stats.py:13-21 | `n` counts the values, the mean times n is their total, the squared standard error is variance / n and is undefined below two values |
| Stats.GroupValues | src/stats.py:34-35 | extracting a group fails on a missing group column, then on a missing `dv`, then on text among the group's `dv` cells |
| Stats.GroupValuesExact | src/stats.py:34-35 | a number is among a group's values exactly when some row of that group holds it in `dv` |
| Stats.GroupValuesCount | src/stats.py:13-14 | a group has one value per row of the group with a present `dv` cell |
| Stats.GroupValuesPresent | src/stats.py:34-35 | a group's values are exactly its rows' present `dv` numbers, in row order, with repeats kept |
| Stats.PresentValuesInOrder | src/stats.py:13 | the i-th value of a group is the `dv` number of the i-th row of that group with a present `dv` cell |
| Stats.DroppedColumnIsPresent | src/stats.py:13 | dropping the missing cells of a group's `dv` column leaves exactly the group's present values |
| Stats.GroupKeysPresent | src/stats.py:12 | the groups are the distinct non-missing values of the group column |
| Stats.GroupDescriptivesSpec | src/stats.py:7-24 | `group_descriptives` succeeds exactly when the group column exists and, if there is any group, `dv` exists without text in grouped rows; it gives one row per group, each the descriptives of exactly that group's present values, in row order |
| Stats.PooledVarianceBetween | src/stats.py:41-42 | the pooled variance lies between the two sample variances, so it is non-negative, and it is the same with the groups swapped |
| Stats.IndependentT | src/stats.py:27-56 | the comparison fails on a missing group column, then on a missing `dv`, then on text in either group; the mean difference is defined when both groups are non-empty and equals `mean1 - mean2` |
| Stats.IndependentTCounts | src/stats.py:34-42 | `n1`/`n2` count each group's rows with a present `dv` value; the means and the pooled variance are computed from exactly those values, repeats included |
| Stats.IndependentTSwap | src/stats.py:40-50 | swapping the groups exchanges means and counts, keeps the pooled variance and negates the mean difference, so Cohen's d changes sign |

## Left out

- Reading the Excel workbook and writing the CSV, with their paths and `mkdir` (src/cleaning.py:8-10, 20, 108-110): these are I/O. The two sheets are inputs of `LoadAndCombine`.
- The printed warnings: `TidyColumns` returns them as two booleans instead.
- `scipy.stats.ttest_ind`, i.e. the Welch t, its degrees of freedom and the p-value (src/stats.py:37): a foreign call needing t-distribution numerics.
- `np.sqrt`: standard deviations and standard errors are reported squared, and Cohen's d only through its numerator `mean1 - mean2` and the pooled variance.
- Floating-point rounding and infinities: the model uses exact reals. NaN is `Missing`. A division by a zero count gives `Missing` (e.g. `accuracy` for N = 0, where pandas computes 0/0 = NaN).
- Number and date parsing (`pd.to_numeric`, `pd.to_datetime`) and `astype(str)`: these are parameters. Their internals are not modelled.
- Stats.GroupDescriptives: groups appear in first-appearance order, not in `groupby`'s sorted key order. Sorting keys of mixed types has no meaning in the model.
- Cleaning.TidyColumns: when the projection lacks columns, pandas' `KeyError` lists every missing label. The model names only the first one, `correct_{m+1}`.
- Summary.AddSummaryScores: when a list of input columns has absent labels, pandas' `KeyError` lists all of them. The model names only the first failing column in reading order, which lies in the same list.
- Summary.AddSummaryScores: text in an input column is a failure. pandas would concatenate strings in a sum over text cells or raise in the division, depending on the cells. The model treats any text cell as the error.
- Mutation in place: `add_question_scores` and `add_summary_scores` mutate their argument, and a failure part-way leaves the columns written so far. The model returns a new table, or only the error.
- The column headers' question text, the sheet names, and pandas dtypes and index labels: they do not affect the values computed.
