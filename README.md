# EPI-DETECT scoring pipeline in Dafny

This project models the in-memory core of EPI-DETECT, a pipeline that finds
acquired epilepsy in clinical notes, and proves properties of that model.
The core is a time-binning and cascade-scoring pipeline:

- **Bin builder, `makeBins`** (`bins.dfy`, module `Bins`). It builds fixed-width
  bins from a window keyword (`week`, `month`, `3month`, `6month`) and a number
  of years: start offsets, end offsets and labels such as `0to3month`.
- **Event-to-bin aggregator, `parseScores`** (`trends.dfy`, module `Trends`).
  It produces one record for every bin and every subject of the score table.
  Each record holds the number of distinct positive events and the highest
  probability among the subject's events dated inside the bin. That window
  runs from anchor + start to anchor + end, both ends included, counted in
  weeks or in calendar months. When there are no events the record carries
  the prior 0.2138259917276594.
- **Pivot, `gen_regFeats`** (`pivot.dfy`, module `Pivot`). It produces one wide
  row per subject: the id, then `p_<label>` and `n_<label>` for each bin.
- **Baseline stage** (`baseline.dfy`, module `Baseline`):
  - the cohort date-window filter of `build_cohort_deidentified`: a note is
    kept when it is dated from admission + 7 days to admission + 2 years;
  - the exclusion list dropped from the training columns;
  - the cleaning and schema alignment of the test frame;
  - the `>= threshold` decision of `assign_scores`.
- **Note-level stage, `score`** (`notelevel.dfy`, module `NoteLevel`).
  - The positive notes are re-scored by a corrector at 0.5.
  - The negative notes keep the baseline probability.
  - The output is sorted by patient and date.
- **Patient-level stage, `score`** (`patientlevel.dfy`, module `PatientLevel`).
  - It uses quarterly bins over two years, the pivot and a classifier at 0.3.
  - The results are left-joined onto the roster with `fillna(0)`.

Support modules:

- `Dates`: calendar dates as (year, month, day), with day, week, month and
  year offsets that clamp the day as `relativedelta` does.
- `Text`: decimal rendering and parsing of labels.
- `Sorting`: a stable sort by a lexicographic key, `np.unique` and
  `drop_duplicates`.
- `Frames`: a data frame as a value, made of column names and rows of cells,
  with schema alignment.
- `Wrappers`: `Option` and `Result`.

Each loop of the source is a `method` proved equal to a reference function:
`MakeBins`/`BuildLabels`, `ParseScores`/`BinRecords`,
`GenRegFeats`/`FillSubjectRow`, `AlignToSchema`, `DropAll`, `AssignScores`,
`NoteLevel.Score` and `PatientLevel.Score`. The lemmas then state what the
source promises about those functions. Three behaviours of the code that a
reader may not expect are under "Behaviour as written" below.

The classifiers are parameters of type `seq<Value> -> real`. Each returns the
positive-class probability of a feature row, taken in the column order of
its input. The baseline threshold is a parameter too. All I/O is left out;
the frames the pipeline reads are parameters.

## Model

| member | source | states |
|---|---|---|
| Bins.MakeBins | utils/trend_helper.py:36-66 | The bins built step by step equal the reference `BinsOf`: starts `arange(0, e - step, step)`, ends `arange(step, e, step)` and one label per start. |
| Bins.BuildLabels | utils/trend_helper.py:58-62 | The append loop yields exactly the labels `str(start) + "to" + str(end) + unit`, one per bin, in bin order. |
| Bins.BinsFailIffUnknown | utils/trend_helper.py:38-55 | `makeBins` fails if and only if the keyword is none of `week`, `month`, `3month`, `6month`. |
| Bins.BinsLength | utils/trend_helper.py:38-56 | Starts, ends and labels have equal length: 52·n for `week`, 12·n for `month`, 4·n for `3month`, 2·n for `6month`, where n = nYears, or none when nYears <= 0. |
| Bins.BinsContiguous | utils/trend_helper.py:36-56 | The first start is 0 and every bin is one step wide. Each bin starts where the previous one ends, and the last ends at nYears·52 weeks or nYears·12 months. |
| Bins.BinLabelsRoundTrip | utils/trend_helper.py:41-62 | Every label parses back to its bin's start, end and unit: `week` for `week`, `month` for the three month windows. Labels are pairwise distinct. |
| Bins.QuarterBinsOfTwoYears | utils/runPatientLevel_helper.py:51 | `makeBins('3month', 2)` gives starts 0, 3, …, 21 and ends 3, 6, …, 24. |
| Bins.QuarterLabelsEnds | utils/runPatientLevel_helper.py:51 | Those bins are labelled from `0to3month` to `21to24month`. |
| Text.LabelRoundTrip | utils/trend_helper.py:61 | A label built from two non-negative offsets and a unit that does not start with a digit parses back to exactly those three parts. |
| Text.ParseNatToString | utils/trend_helper.py:61 | Parsing the decimal rendering of n gives back n. |
| Dates.AddMonths | utils/trend_helper.py:141-142 | Adding k months moves the month index by exactly k and clamps the day to the target month's length, as `relativedelta(months=k)` does. |
| Dates.YearsAreTwelveMonths | utils/runBaseline_helper.py:42 | `relativedelta(years=n)` is the same date as `relativedelta(months=12·n)`: the month index moves by 12·n, the month stays and the day is clamped (29 February to 28 February). |
| Dates.AddYearsForward | utils/runBaseline_helper.py:42 | The upper cohort bound, admission + n years for n >= 0, is never before the admission. |
| Dates.AddDaysNumber | utils/runBaseline_helper.py:41 | `d + timedelta(days=n)` (the `Dates.AddDays` step-by-day walk) is the date whose day count from 1 January of year 1 is exactly n more, for negative n too. |
| Dates.AddWeeksNumber | utils/trend_helper.py:138-139 | `relativedelta(weeks=w)` (`Dates.AddWeeks`) moves the day count by exactly 7·w. |
| Dates.AddDaysSplit | utils/runBaseline_helper.py:41 | Adding a + b days is adding a days and then b days. |
| Dates.AddDaysMonotone | utils/runBaseline_helper.py:41 | More days added never gives an earlier date. |
| Dates.AddMonthsMonotone | utils/trend_helper.py:141-142 | A larger month offset never gives an earlier date. |
| Dates.AddWeeksMonotone | utils/trend_helper.py:138-139 | A larger week offset never gives an earlier date. |
| Dates.AddDaysForward | utils/runBaseline_helper.py:41 | Adding a non-negative number of days never goes back in time. |
| Trends.ParseScores | utils/trend_helper.py:123-168 | The nested bin × subject loop returns exactly the reference `TimeTrends`, including its failures. |
| Trends.BinRecords | utils/trend_helper.py:152-166 | The inner loop appends, for one bin, one record per subject of `ptList`, in that order. |
| Trends.TimeTrendsSuccess | utils/trend_helper.py:130-142 | The aggregation fails if and only if some label has no start or end, or the first label names neither `week` nor `month`. |
| Trends.SubjectsMembers | utils/trend_helper.py:127 | The subjects are strictly ascending and are exactly the ids that occur in the score table. |
| Trends.TimeTrendsLength | utils/trend_helper.py:127-166 | On success there are exactly \|labels\| · \|subjects\| records. |
| Trends.TimeTrendsAt | utils/trend_helper.py:130-166 | The record at b·\|subjects\| + s is the aggregate of subject s over bin b's window, with label b and `t` = b. Bins are the outer order and subjects the inner. |
| Trends.AggregateMeaning | utils/trend_helper.py:145-165 | The hits are the subject's distinct positive in-window events. The highest probability is the maximum over all in-window events of any answer. With no such events it is exactly the prior and the hits are 0. |
| Trends.NoAnchorNoBin | utils/trend_helper.py:138-147 | A subject without an anchor row has no event in any window: 0 hits and the prior. |
| Trends.BoundaryInBothWindows | utils/trend_helper.py:147 | An event dated exactly on a shared bin boundary is inside both adjacent windows. |
| Trends.BoundaryCountedTwice | utils/trend_helper.py:145-165 | Such an event counts as a hit, when positive, in both bins, and bounds both bins' highest probability from below. |
| Trends.DuplicateRowIgnored | utils/trend_helper.py:145 | Repeating a row that is already in the score table leaves every record unchanged, because of `drop_duplicates`. |
| Trends.MakeBinsWindows | utils/trend_helper.py:136-142 | For `makeBins` output, bin b is counted in the keyword's unit from its own start to its own end. |
| Trends.MakeBinsTrendsSucceed | utils/trend_helper.py:130-142 | Bins from `makeBins` always aggregate without error. |
| Trends.NoteOnAnchorDay | utils/trend_helper.py:136-165 | A positive note on the anchor day counts in `0to1week` only. `1to2week` gets 0 hits and the prior. |
| Trends.NoteOnSharedBoundary | utils/trend_helper.py:136-165 | A positive note exactly one week after the anchor counts in both `0to1week` and `1to2week`. |
| Pivot.GenRegFeats | utils/trend_helper.py:195-217 | The nested subject × label loop returns exactly the reference `RegFeats`, including its failure on a missing record. |
| Pivot.FillSubjectRow | utils/trend_helper.py:204-212 | One subject's row, built cell by cell, equals `SubjectRow`, and its columns are the id followed by the `p_`/`n_` names. |
| Pivot.RegFeatsSuccess | utils/trend_helper.py:207-212 | The pivot succeeds if and only if every subject has a record for every label. |
| Pivot.RegFeatsShape | utils/trend_helper.py:195-217 | The pivot has one row per distinct subject, ascending, under the id and `p_`/`n_` columns. |
| Pivot.RegFeatsCells | utils/trend_helper.py:209-212 | Cells `p_<label>` and `n_<label>` of subject k hold the highest probability and the hits of its first matching record. The id cell holds the subject. |
| Pivot.RegFeatsEmpty | utils/trend_helper.py:195-198 | An empty long table pivots to an empty frame with no columns. |
| Pivot.RegColumnsLayout | utils/trend_helper.py:205-212 | For distinct labels the columns are the id followed by `p_<label>`, `n_<label>` per label, in label order: 1 + 2·\|labels\| of them. |
| Pivot.TrendsPivotSubjects | utils/trend_helper.py:195 | The pivot's subjects are exactly the score table's subjects. |
| Pivot.TrendsRegFeatsSucceed | utils/trend_helper.py:195-212 | With distinct labels, `gen_regFeats` never fails on the output of `parseScores`. |
| Pivot.TrendsRegFeatsCell | utils/trend_helper.py:145-212 | Composed: subject k's `p_`/`n_` cells for bin b are the highest probability and hits of its events in bin b's window. |
| Frames.FillNAComplete | utils/runBaseline_helper.py:126 | After `fillna(v)` with a present v no cell is missing, so a second `fillna(v)` changes nothing. |
| Frames.DropDuplicatedColumnsSpec | utils/runBaseline_helper.py:127 | After `Frames.DropDuplicatedColumns` (`~columns.duplicated()`) the names are distinct and are the same set. Each kept column holds the first column of that name. |
| Frames.DropColumns | utils/runBaseline_helper.py:128 | The drop succeeds if and only if every listed name is present. The columns left are exactly the others. |
| Frames.AlignToSchema | utils/runBaseline_helper.py:130-135 | The loop adding missing columns as zeros, then the reordering, gives exactly `Aligned`: the training columns in order, with absent ones 0. |
| Frames.AlignedIdempotent | utils/runBaseline_helper.py:130-135 | Aligning an already aligned frame changes nothing. |
| Frames.AlignedIdentity | utils/runBaseline_helper.py:130-135 | A frame with distinct names aligned to its own columns is unchanged. |
| Frames.SelectAll | utils/runPatientLevel_helper.py:65 | `t[names]` (`Frames.Select`) on a frame's own, distinct column names gives the frame back. |
| Sorting.SortBy | utils/runNoteLevel_helper.py:76 | The stable key sort behind `sort_values` returns a permutation of its input (the same multiset, the same length). |
| Sorting.SortBySorted | utils/runNoteLevel_helper.py:76 | Its output is ordered by the key. |
| Sorting.Unique | utils/trend_helper.py:127 | `np.unique` gives a strictly ascending list holding exactly the values of its input. |
| Sorting.StrictlyIncreasingUnique | utils/trend_helper.py:195 | Two strictly ascending lists with the same values are equal, so `np.unique` of columns with the same values gives the same subjects. |
| Sorting.Dedup | utils/runBaseline_helper.py:44 | `drop_duplicates` keeps every value of its input, only values of its input, and each once. |
| Sorting.DedupOrder | utils/runBaseline_helper.py:44 | The values it keeps are in the order of their first occurrences in the input. |
| Baseline.MergeRows | utils/runBaseline_helper.py:44-48 | A merged row is exactly a note paired with the bounds of a roster row of the same patient. |
| Baseline.CohortSound | utils/runBaseline_helper.py:41-52 | Every note kept is one of the notes, and a roster row of its patient has a window containing its date. |
| Baseline.CohortComplete | utils/runBaseline_helper.py:41-52 | Every such note is kept. |
| Baseline.CohortMembership | utils/runBaseline_helper.py:41-52 | A note survives `Baseline.CohortNotes` if and only if it is one of the notes and a roster row of its patient has admission + 7 days <= date <= admission + 2 years. |
| Baseline.DropAll | utils/runBaseline_helper.py:116-117 | The exclusion loop equals the reference `DropEach`. |
| Baseline.DropEachSpec | utils/runBaseline_helper.py:116-117 | The loop succeeds if and only if each listed column is still present at its turn. It then leaves exactly the unlisted columns, in order. |
| Baseline.WithoutTwice | utils/runBaseline_helper.py:116-117 | Dropping one list and then another equals dropping their concatenation. |
| Baseline.DecideMonotone | utils/runBaseline_helper.py:159 | A higher probability never gets a lower answer under the same threshold. |
| Baseline.AssignScores | utils/runBaseline_helper.py:106-166 | The stage as written equals the reference `AssignedScores` with the source's 39 excluded columns. |
| Baseline.AssignedScoresFailure | utils/runBaseline_helper.py:116-142 | The stage fails if and only if an excluded column is missing at its turn, `PatientID` or `Date` is missing from the notes, or there are no notes. |
| Baseline.ClassifierInputCells | utils/runBaseline_helper.py:126-135 | The classifier input has exactly the training columns, in order. A cell is the note's filled value when the column is a non-id column of the notes, and 0 otherwise. |
| Baseline.AssignedScoresRows | utils/runBaseline_helper.py:159-166 | Each output row is the cleaned note row followed by 1 − p, p and an answer that is 1 if and only if p >= threshold. The columns are the cleaned ones plus `prob_NO`, `prob_YES`, `model_answer`. |
| NoteLevel.Where | utils/runNoteLevel_helper.py:49-71 | The positive (or negative) selection is exactly the ascending list of row indices whose `model_answer` is (or is not) 1. |
| NoteLevel.Score | utils/runNoteLevel_helper.py:49-78 | The stage as written equals the reference `NoteScores`, including its failures. |
| NoteLevel.RescorePositives | utils/runNoteLevel_helper.py:64-66 | The positives' loop yields their adjusted rows in order. |
| NoteLevel.CarryNegatives | utils/runNoteLevel_helper.py:71-73 | The negatives' loop yields their adjusted rows in order. |
| NoteLevel.AlignedFeatures | utils/runNoteLevel_helper.py:51-58 | Row i of the aligned positives frame is positive note i's feature row. |
| NoteLevel.FeatureRowCells | utils/runNoteLevel_helper.py:51-58 | Feature j is 0 when the name is not among the leading columns; otherwise it is that column's cell. |
| NoteLevel.FeatureRowIgnoresTrailing | utils/runNoteLevel_helper.py:51 | The last 5 columns never influence the corrector's input. |
| NoteLevel.AdjustedMeaning | utils/runNoteLevel_helper.py:64-78 | Every note keeps its id, date, baseline answer and baseline probability. A positive gets the corrector's p and answer 1 if and only if p >= 0.5. Any other note gets answer 0 and its `prob_YES`. |
| NoteLevel.NoteScoresFailure | utils/runNoteLevel_helper.py:49-76 | The stage succeeds if and only if the four read columns exist and some note is positive. With `model_answer` present and no positive note it fails with `NoPositives`. |
| NoteLevel.NoteScoresPermutation | utils/runNoteLevel_helper.py:49-76 | The output is a permutation of the adjusted rows of all the notes, so there is one row per input note. |
| NoteLevel.NoteScoresSorted | utils/runNoteLevel_helper.py:76 | The output is sorted by (PatientID, Date). |
| PatientLevel.AnchorsOfRoster | utils/runPatientLevel_helper.py:53-56 | With distinct roster ids, the anchor map has exactly the roster's ids, each mapped to its admission date. |
| PatientLevel.QuarterShape | utils/runPatientLevel_helper.py:51 | The stage's bins are 8 quarters, and bin b runs from month 3b to month 3b+3. |
| PatientLevel.QuarterLabels | utils/runPatientLevel_helper.py:51-59 | The quarter labels are distinct and never produce the name `PatientID`. |
| PatientLevel.QuarterWindowAt | utils/runPatientLevel_helper.py:56 | Quarter b is aggregated over calendar months 3b to 3b+3 after admission. |
| PatientLevel.QuarterFeaturesAt | utils/runPatientLevel_helper.py:59-65 | Feature 2b is the top probability of quarter b (the prior when empty) and feature 2b+1 its number of distinct positive notes. |
| PatientLevel.PivotShape | utils/runPatientLevel_helper.py:59 | For a non-empty score table the pivot is well formed. It has one row per scored patient and 17 columns: `PatientID` followed by the 16 quarter features. |
| PatientLevel.PivotFeatures | utils/runPatientLevel_helper.py:64-65 | Row k of the pivot without its first column is scored patient k's 16 quarter features. |
| PatientLevel.PredictionAt | utils/runPatientLevel_helper.py:67-69 | Patient k's prediction is 1 if and only if the classifier's p on its quarter features is >= 0.3, and its probability is p. |
| PatientLevel.LookupAt | utils/runPatientLevel_helper.py:71 | The left join picks the first prediction row with the patient's id. |
| PatientLevel.JoinedExpected | utils/runPatientLevel_helper.py:71-76 | A roster patient's joined row equals its expected result. A scored patient gets the classifier's answer and probability; any other gets 0 and 0. |
| PatientLevel.Score | utils/runPatientLevel_helper.py:51-76 | The stage as written equals the reference `Outcome`. |
| PatientLevel.OutcomeFailure | utils/runPatientLevel_helper.py:56-76 | The stage fails if and only if the score table is empty. It then fails with `EmptyPivot`, which stands for the `KeyError` that `gen_regFeats` raises at `data[id_col]` (utils/trend_helper.py:195) on the column-less frame `parseScores` returns. |
| PatientLevel.OutcomeCorrect | utils/runPatientLevel_helper.py:51-76 | For a non-empty score table, the output is the roster's expected results, sorted by PatientID. |
| PatientLevel.OutcomeRows | utils/runPatientLevel_helper.py:67-76 | The output has one row per roster row, sorted by PatientID, and is a permutation of the expected rows. Prediction is 1 if and only if the patient has scored notes and p >= 0.3. Patients without notes get 0 and 0. |
| PatientLevel.NegativeOnlyPatientClassified | utils/runPatientLevel_helper.py:35-76 | A patient whose only note is negative is still classified: its row carries the classifier's answer and probability. |

## Behaviour as written

The model follows the code in these places.

- **Patients with only negative notes are classified.** The comment at
  `runPatientLevel_helper.py:75` says that patients labelled non-epilepsy
  from the start would not have been given a prediction. But line 35
  computes `positive_ids` and never uses it.
  So a patient with notes but no positive note still goes through the
  classifier (`PatientLevel.NegativeOnlyPatientClassified`). Only patients
  with no notes at all get 0 and 0.
- **Only scored subjects are aggregated.** `parseScores` takes its subjects
  from the score table (`trend_helper.py:127`), not from the anchor dates.
  - A subject with an anchor date and no event gets no record.
  - A scored subject without an anchor date gets records with 0 hits and
    the prior (`Trends.NoAnchorNoBin`).
- **Boundary dates count twice.** Both bounds are inclusive, so an event
  dated exactly on a shared bin boundary (anchor + 1 week, say) is counted
  in both adjacent bins (`Trends.NoteOnSharedBoundary`). An event on the
  anchor day is counted in the first bin only (`Trends.NoteOnAnchorDay`).

## Left out

- CSV reading and writing, model loading (`dill`/`pickle`), `notes_fnc`
  featurisation, `print`, plotting and `main.py`. These are I/O or code
  outside the core; their inputs and outputs are parameters and results.
- The classifiers are abstract functions of a feature row, and
  `prob_NO` is 1 − `prob_YES`. The baseline threshold is a parameter, so its
  `precision_recall_curve` calibration is not modelled; it is floating-point
  sklearn code.
- Floating point: probabilities are exact reals, counts are naturals, and
  the prior is the exact decimal.
- The in-place writes of `Date_before`/`Date_after` on the caller's frames
  are not modelled; their values are recomputed from the anchor dates as
  pure functions.
- pandas index alignment: in `assign_scores` the concatenation along axis 1
  is modelled as row-by-row pairing.
- Sorting on a missing (`NaN`/`NaT`) key is not modelled: such a key sorts
  as 0 in `NoteLevel.ScoreKey`, while pandas puts it last.
- NoteLevel.ScoreKey: keys on the floor of `PatientID`. Ids 1.2 and 1.7
  would tie and keep their input order, where pandas orders them. The
  roster's ids are integers.
- Failures that pandas or sklearn raise are modelled as `Result` errors:
  - a missing column;
  - a missing (subject, label) record in `gen_regFeats`;
  - an unknown window keyword;
  - a classifier given no rows (`NoNotes`, `NoPositives`);
  - the `KeyError` of `gen_regFeats` reading the id column
    (`trend_helper.py:195`) of the column-less frame that `parseScores`
    returns when there are no scored notes (`EmptyPivot`). The records of
    the model carry no column list, so this case shows as a pivot without
    an id column.
  The model does not distinguish the kinds of exception.
- PatientLevel.Score: requires distinct `PatientID`s in the roster. With a
  repeated id, `AnchorsOf` keeps the first row's admission date rather than
  merging every row as pandas would.
- Baseline.CohortMembership: a row of the outer merge that has no partner
  carries missing bounds or a missing date. It never passes the window
  filter, so the model produces no such row.
- Dates.AddMonths: dates are proleptic Gregorian calendar triples; times of
  day are not modelled.
- NoteLevel.Score: the stage fails when the score table has no positive
  note. The classifier raises on an empty frame, and the model reports
  `NoPositives` instead of an output.
