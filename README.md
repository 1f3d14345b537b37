# Sepsis cohort labelling and caliper matching, modelled in Dafny

This project models the data-preparation core of the sepsis-prediction
pipeline and the greedy propensity-score matcher used in its statistical
tests. It covers:

- **Cohort helpers** (`cohort.py`): `filter_df` restricts a table to a list of values. `get_dev_cohort_list` picks the smallest distinct subject ids. `join_infections` outer-joins the two admission-level infection tables and fills gaps with 0.
- **TREWScore stages** (`trewscore.py`), per charttime:
  - sepsis: two or more SIRS criteria and a suspected infection;
  - severe sepsis: sepsis and organ dysfunction;
  - septic shock: severe sepsis, hypotension and adequate fluid, evaluated after a per-ICU-stay forward fill (`impute_missing`) and `fillna(False)`.
- **Admission labelling** (`labels.py`):
  - admissions of at least twelve hours;
  - the merge with the septic-shock rows, adding the relative charttime (hours) and the index time (admittime + 12 h);
  - exclusion of admissions with shock before fifteen hours;
  - positive/negative labels;
  - the latest admission per subject.
- **Diagnosis features** (`features.py`):
  - diagnoses inside the window admittime ≤ dischtime < index_time;
  - the distinct-patient count per ICD-9 code behind the information content (IC);
  - the inclusive IC range [4, 9];
  - the RECENT/PRIOR bins at 6 × 30.44 days, with their per-(subject, code) sums.
- **Caliper matching** (`matching.py`): the probability clamp of `safe_logit`, and `caliper_match`. `caliper_match` visits the treated records in order. Each one takes the nearest untreated record still in the pool, if that record is within the threshold, and the chosen record leaves the pool.

Tables are sequences of records. A missing cell (NaN/NaT) is an `Option` that is `None`. pandas compares such a cell as false, and a missing flag under `&` counts as False. Times are whole seconds. Relative charttime is a real number of hours. Six months is 15,780,096 s, which is exact. The generic table operations live in module `Tables`:

- selection by a mask;
- a stable sort on an integer key pair;
- first-occurrence de-duplication on a key;
- inner and full outer joins on a key.

Module `ForwardFill` holds the last-observation-carried-forward fill of one column within groups.

Columns that the source adds to a frame in place are `Option` fields, `None` until the method that adds them runs. Those methods are `get_sepsis_status`, `get_relative_charttime`, `get_index_time`, and the RECENT/PRIOR step of `get_diagnosis_features`. Each is a method over an `array` with a `modifies` clause. `get_shock_labels` works on a copy of its input, and the model's input is an immutable sequence, so it is left untouched.

Where the docstrings and the code disagree, the model follows the code:

- The twelve-hour filter keeps admissions of exactly twelve hours (`>=`), although its docstring says "greater than".
- The exclusion rule, like the code, removes every admission with a shock row before fifteen hours, even when the admission also has later shock.

## Model

| member | source | states |
|---|---|---|
| Tables.Where | sepsis-predict/cohort-building/src/cohort.py:64 | boolean-mask selection keeps exactly the rows satisfying the mask, each with its original multiplicity |
| Tables.WhereAppend | sepsis-predict/cohort-building/src/cohort.py:64 | selection keeps the relative order of rows: selecting from a concatenation is the concatenation of the selections |
| Tables.SortBy | sepsis-predict/feature-engineering/src/labels.py:207 | sorting yields a key-ordered permutation of the rows (same multiset, same length) |
| Tables.SortBySorted | sepsis-predict/cohort-building/src/trewscore.py:257 | rows already in key order are left where they are |
| Tables.DropDuplicatesBy | sepsis-predict/feature-engineering/src/labels.py:208 | `drop_duplicates(keep='first')`: keys become pairwise distinct, no key is lost, and each kept row is the first row of the input with its key |
| Tables.OuterJoin | sepsis-predict/cohort-building/src/cohort.py:173 | a full outer join row is a matched pair, a left row whose key the right side lacks, or a right row whose key the left side lacks, and nothing else |
| Tables.OuterJoinOneRowPerKey | sepsis-predict/cohort-building/src/cohort.py:173 | with unique keys on both sides the join has one row per key, and its keys are exactly the keys present on either side |
| Tables.InnerJoin | sepsis-predict/feature-engineering/src/labels.py:82 | an inner join row is exactly a left row and a right row with the same key |
| Tables.KeyByHasKey | sepsis-predict/feature-engineering/src/labels.py:82 | a key occurs in the keyed table iff some row has that key |
| Tables.OuterJoinLeftRows | sepsis-predict/cohort-building/src/trewscore.py:63 | the rows carrying a left row are each left row paired with each of its matches, or with None when it has none |
| Tables.OuterJoinRowSides | sepsis-predict/cohort-building/src/trewscore.py:236 | every outer-join row has at least one side; a missing side means that side has no row with the key |
| Tables.OuterJoinKeepsLeft | sepsis-predict/cohort-building/src/trewscore.py:236 | no left row is lost by an outer join |
| Tables.OuterJoinKeepsRight | sepsis-predict/cohort-building/src/trewscore.py:236 | no right row is lost by an outer join |
| Cohort.FilterDf | sepsis-predict/cohort-building/src/cohort.py:58-64 | an empty value list gives an empty table with the same columns (checked first); otherwise a missing column is a ValueError; otherwise exactly the rows whose cell is in the list, with their multiplicities |
| Cohort.FilterDfKeepsOrder | sepsis-predict/cohort-building/src/cohort.py:64 | the filtered rows keep their original relative order |
| Cohort.UniqueIdsDistinct | sepsis-predict/cohort-building/src/cohort.py:117 | `unique()` yields pairwise distinct ids |
| Cohort.UniqueIdsValues | sepsis-predict/cohort-building/src/cohort.py:117 | `unique()` keeps exactly the ids of the column |
| Cohort.SortedUniqueIds | sepsis-predict/cohort-building/src/cohort.py:117-118 | the sorted unique ids are strictly ascending, are exactly the column's ids, and number as many as its distinct ids |
| Cohort.TakeAscending | sepsis-predict/cohort-building/src/cohort.py:119-124 | the slice stays strictly ascending, with length 0 for n ≤ 0, n when n is below the number of ids, all of them otherwise |
| Cohort.TakeSmallest | sepsis-predict/cohort-building/src/cohort.py:124 | every id returned is smaller than every id left out |
| Cohort.GetDevCohortList | sepsis-predict/cohort-building/src/cohort.py:117-124 | empty for n ≤ 0; otherwise strictly ascending distinct ids of the column, of length min(n, number of distinct ids), each smaller than every distinct id not returned |
| Cohort.FlagOfRow | sepsis-predict/cohort-building/src/cohort.py:174 | with unique admissions, the flag looked up for a row's admission is that row's flag, 0 when missing |
| Cohort.FlagOfAbsent | sepsis-predict/cohort-building/src/cohort.py:174 | an admission with no row has flag 0 |
| Cohort.KeyedHasKey | sepsis-predict/cohort-building/src/cohort.py:173 | an admission key occurs in the keyed table iff the table has a row for it |
| Cohort.JoinInfectionsAdmissionsUnique | sepsis-predict/cohort-building/src/cohort.py:173 | with unique admissions on both inputs, the joined table has one row per (subject_id, hadm_id) |
| Cohort.JoinInfectionsRowIsAdmission | sepsis-predict/cohort-building/src/cohort.py:173 | every joined row is an admission of one of the inputs |
| Cohort.AdmissionHasJoinedRow | sepsis-predict/cohort-building/src/cohort.py:173 | every admission of either input has a joined row |
| Cohort.JoinInfectionsCoversAdmissions | sepsis-predict/cohort-building/src/cohort.py:173 | a joined row exists for an admission iff either input has it |
| Cohort.CellFlag | sepsis-predict/cohort-building/src/cohort.py:174 | a joined cell filled with 0 when missing equals the input table's flag for that admission |
| Cohort.JoinInfectionsFlags | sepsis-predict/cohort-building/src/cohort.py:173-174 | each joined row carries the ICD-9 flag of the first table and the note flag of the second, 0 where a table has no row or the cell is missing |
| Cohort.JoinInfections | sepsis-predict/cohort-building/src/cohort.py:173-174 | join_infections: a joined row exists for an admission iff either table has a row for it; with one row per admission in each table, one row per admission, carrying the ICD-9 flag of the first table and the note flag of the second, 0 where a table has no row or the cell is missing |
| ForwardFill.LastObservedIndex | sepsis-predict/cohort-building/src/trewscore.py:259 | the index found is the last earlier row of the group with an observed value, or -1 when there is none |
| ForwardFill.FillColumn | sepsis-predict/cohort-building/src/trewscore.py:259 | the filled column has the input's length and each cell is the group's most recent observation up to that row |
| ForwardFill.FillKeepsObserved | sepsis-predict/cohort-building/src/trewscore.py:259 | an observed cell is never changed by the fill |
| ForwardFill.FillTakesMostRecent | sepsis-predict/cohort-building/src/trewscore.py:259 | a filled cell equals the cell of an earlier-or-same row of its group, with nothing observed in the group between them; a cell stays missing iff nothing is observed in its group up to it (no backward fill) |
| ForwardFill.LastObservedIndexLocal | sepsis-predict/cohort-building/src/trewscore.py:259 | the lookup for a group depends only on that group's cells |
| ForwardFill.FillGroupIsolation | sepsis-predict/cohort-building/src/trewscore.py:259 | changing other groups' cells never changes a group's filled cells: the fill never crosses groups |
| ForwardFill.FillIdempotent | sepsis-predict/cohort-building/src/trewscore.py:259 | filling a filled column changes nothing |
| ForwardFill.NoObservationNoIndex | sepsis-predict/cohort-building/src/trewscore.py:259 | with no observation in the group so far, the lookup finds nothing |
| Trewscore.SepsisRule | sepsis-predict/cohort-building/src/trewscore.py:102-103 | sepsis iff all four SIRS criteria are present and sum to at least 2, and the ICD-9 or the note infection flag equals 1 (a missing cell compares false) |
| Trewscore.GetSepsisStatus | sepsis-predict/cohort-building/src/trewscore.py:102-103 | writes the sepsis_status column into every row of the frame in place, computed by the rule from that row, and changes nothing else |
| Trewscore.InfectionMatch | sepsis-predict/cohort-building/src/trewscore.py:63 | an infection cell matches in the outer join exactly when it is an infection row of the same admission, or None when the admission has none |
| Trewscore.KeptRowIsPaired | sepsis-predict/cohort-building/src/trewscore.py:63-64 | a join row kept after dropping missing charttimes is a timed SIRS row paired with one of its admission's infection rows (or none) |
| Trewscore.PairedRowIsKept | sepsis-predict/cohort-building/src/trewscore.py:63-64 | every timed SIRS row with each of its admission's infection rows survives the join and the drop |
| Trewscore.SepsisSummarySound | sepsis-predict/cohort-building/src/trewscore.py:63-64 | every summary row comes from a timed SIRS row and an infection row of its admission |
| Trewscore.SepsisSummaryComplete | sepsis-predict/cohort-building/src/trewscore.py:63-64 | every timed SIRS row with an infection row of its admission appears in the summary |
| Trewscore.SepsisSummaryRows | sepsis-predict/cohort-building/src/trewscore.py:63-65 | the summary rows are exactly the timed SIRS rows joined with their infection rows, each with status = rule |
| Trewscore.SummarizeSepsis | sepsis-predict/cohort-building/src/trewscore.py:63-65 | summarize_sepsis: the rows are exactly the timed SIRS rows paired with their admission's infection rows (none dropped, none invented), and each row's sepsis_status is the rule on that row |
| Trewscore.SevereFlag | sepsis-predict/cohort-building/src/trewscore.py:161 | severe sepsis iff sepsis_status and has_organ_dysfunction are both present and true |
| Trewscore.FlaggedSevereRows | sepsis-predict/cohort-building/src/trewscore.py:160-161 | the flagged rows are exactly the joined rows, each with its severe flag |
| Trewscore.KeptSevereRowIsPaired | sepsis-predict/cohort-building/src/trewscore.py:160-162 | a kept row is a sepsis row paired with its admission's organ row (or none), flagged by the rule |
| Trewscore.PairedSevereRowIsKept | sepsis-predict/cohort-building/src/trewscore.py:160-162 | every sepsis row with each organ row of its admission survives the join and the drop, with its flag unchanged by the drop |
| Trewscore.SevereSummarySound | sepsis-predict/cohort-building/src/trewscore.py:160-162 | every severe-summary row comes from a sepsis row and an organ row of its admission |
| Trewscore.SevereSummaryComplete | sepsis-predict/cohort-building/src/trewscore.py:160-162 | every sepsis row paired with an organ row of its admission appears in the severe summary |
| Trewscore.SevereSummaryRows | sepsis-predict/cohort-building/src/trewscore.py:160-162 | the severe summary is exactly the paired rows, and severe_sepsis_status holds iff sepsis_status and organ dysfunction are both true |
| Trewscore.SummarizeSevereSepsis | sepsis-predict/cohort-building/src/trewscore.py:160-162 | summarize_severe_sepsis: exactly the sepsis rows paired with their organ rows; severe_sepsis_status iff sepsis and organ dysfunction are both true |
| Trewscore.FirstMergeKeySource | sepsis-predict/cohort-building/src/trewscore.py:236 | every key of the first merge is a key of the severe or of the hypotension table |
| Trewscore.FirstMergeHasKey | sepsis-predict/cohort-building/src/trewscore.py:236 | every key of the severe or the hypotension table is a key of the first merge |
| Trewscore.MergedRowSides | sepsis-predict/cohort-building/src/trewscore.py:236-237 | every merged row is the cells of a second-merge row |
| Trewscore.SecondMergeLeft | sepsis-predict/cohort-building/src/trewscore.py:237 | a second-merge row carries a first-merge row or no earlier row with its key, and its fluid row or no fluid row with its key |
| Trewscore.MergedSevereAndHypotension | sepsis-predict/cohort-building/src/trewscore.py:236-237 | a present severe or hypotension flag is the flag of a source row with the same (subject, hadm, icustay, charttime); a missing one means no source row has that key |
| Trewscore.MergedFluid | sepsis-predict/cohort-building/src/trewscore.py:237 | a present adequate_fluid flag comes from a fluid row with the same key; a missing one means there is none |
| Trewscore.MergeKeepsSevere | sepsis-predict/cohort-building/src/trewscore.py:236-237 | every severe-sepsis row reaches the merged table with its key and flag |
| Trewscore.MergeKeepsHypotension | sepsis-predict/cohort-building/src/trewscore.py:236-237 | every hypotension row reaches the merged table with its key and flag |
| Trewscore.MergeKeepsFluid | sepsis-predict/cohort-building/src/trewscore.py:237 | every fluid row reaches the merged table with its key and flag |
| Trewscore.ShockMergeHasRow | sepsis-predict/cohort-building/src/trewscore.py:237 | every second-merge row appears, as its cells, in the merged table |
| Trewscore.Stays | sepsis-predict/cohort-building/src/trewscore.py:259 | the fill group of each row is its (subject_id, hadm_id, icustay_id) |
| Trewscore.FillStays | sepsis-predict/cohort-building/src/trewscore.py:259 | every row keeps its key and gets, in each flag column, the group's forward-filled cell |
| Trewscore.FillStaysKeepsObserved | sepsis-predict/cohort-building/src/trewscore.py:259 | a present flag is never changed by the fill |
| Trewscore.FillStaysFromEarlier | sepsis-predict/cohort-building/src/trewscore.py:259 | a filled flag comes from an earlier-or-same row of the same ICU stay; a flag stays missing iff no such row has it |
| Trewscore.FillStaysStays | sepsis-predict/cohort-building/src/trewscore.py:259 | the fill leaves every row's group unchanged |
| Trewscore.FillStaysCells | sepsis-predict/cohort-building/src/trewscore.py:259 | each flag column of the result is the forward fill of that column |
| Trewscore.FillStaysColumnIdempotent | sepsis-predict/cohort-building/src/trewscore.py:259 | filling a filled column again gives the same column |
| Trewscore.FillStaysIdempotent | sepsis-predict/cohort-building/src/trewscore.py:259 | filling the filled rows changes nothing |
| Trewscore.ImputeMissing | sepsis-predict/cohort-building/src/trewscore.py:257-259 | impute_missing returns as many rows as it is given, in charttime order |
| Trewscore.ImputeKeepsRows | sepsis-predict/cohort-building/src/trewscore.py:257-259 | every input row's (subject, hadm, icustay, charttime) appears in the output |
| Trewscore.ImputeAddsNoRows | sepsis-predict/cohort-building/src/trewscore.py:257-259 | every output row's key is the key of an input row |
| Trewscore.ImputeFromEarlier | sepsis-predict/cohort-building/src/trewscore.py:257-259 | a present flag in the output is the flag of an input row of the same ICU stay at the same or an earlier charttime: never a later one, never another stay |
| Trewscore.SortedByCharttimeEarlier | sepsis-predict/cohort-building/src/trewscore.py:257 | a row sorted earlier is an input row with no later charttime |
| Trewscore.ImputeMissingOnlyIfUnobserved | sepsis-predict/cohort-building/src/trewscore.py:257-259 | a flag stays missing only when no input row of the same stay at a strictly earlier charttime has it |
| Trewscore.ImputeKeepsKeys | sepsis-predict/cohort-building/src/trewscore.py:257-259 | the (subject, hadm, icustay, charttime) keys of the output are those of the input, each as often: rows are reordered and filled, never added, dropped or re-keyed |
| Trewscore.ImputeKeepsObserved | sepsis-predict/cohort-building/src/trewscore.py:257-259 | output row i has the key of row i of the rows in charttime order, and every flag that row observed is kept unchanged |
| Trewscore.ImputeTakesMostRecent | sepsis-predict/cohort-building/src/trewscore.py:257-259 | in charttime order, an imputed flag is the most recent observation of that flag in the same ICU stay at or before the row, with none in between; it stays missing iff the stay has no observation up to the row |
| Trewscore.FillStaysMostRecent | sepsis-predict/cohort-building/src/trewscore.py:259 | on rows in charttime order, the fill takes each flag from the most recent observing row of the same ICU stay, and leaves it missing iff there is none |
| Trewscore.ImputeIdempotent | sepsis-predict/cohort-building/src/trewscore.py:257-259 | imputing an imputed table changes nothing |
| Trewscore.ShockRowOf | sepsis-predict/cohort-building/src/trewscore.py:242-245 | after fillna(False) every flag is a plain bool; septic_shock holds iff severe sepsis, hypotension and adequate fluid are all present and true; the key is kept |
| Trewscore.SummarizeSepticShock | sepsis-predict/cohort-building/src/trewscore.py:236-245 | one output row per merged row: each is the merged table, imputed, with missing flags False and septic_shock the conjunction |
| Trewscore.ShockFlagSource | sepsis-predict/cohort-building/src/trewscore.py:236-242 | a true flag after imputation comes from a merged row of the same stay, true, at the same or an earlier charttime |
| Trewscore.SepticShockEvidence | sepsis-predict/cohort-building/src/trewscore.py:236-245 | a septic-shock row is backed by a true severe-sepsis row, a true hypotension row and a true adequate-fluid row of the same ICU stay, none later than its charttime |
| Trewscore.SepticShockWhenObserved | sepsis-predict/cohort-building/src/trewscore.py:236-245 | a merged row with all three flags observed true yields a septic-shock row with its key |
| Labels.FilterAdmissions | sepsis-predict/feature-engineering/src/labels.py:45 | keeps exactly the admissions with dischtime − admittime ≥ 12 h (inclusive), with their multiplicities |
| Labels.JoinedAdmissionRow | sepsis-predict/feature-engineering/src/labels.py:82 | every inner-join row pairs a septic-shock row with an admission of the same (subject_id, hadm_id) |
| Labels.InnerMerge | sepsis-predict/feature-engineering/src/labels.py:82 | the merged rows are exactly a septic-shock row with an admission of the same key: every merged row has its admission |
| Labels.GetRelativeCharttime | sepsis-predict/feature-engineering/src/labels.py:116 | adds relative_charttime = (charttime − admittime) in hours to every row in place, nothing else changes |
| Labels.GetIndexTime | sepsis-predict/feature-engineering/src/labels.py:144 | adds index_time = admittime + 12 h to every row in place, nothing else changes |
| Labels.TimedRowsSound | sepsis-predict/feature-engineering/src/labels.py:82-84 | every timed merged row is a septic-shock row with its admission, with both time columns |
| Labels.TimedRowsComplete | sepsis-predict/feature-engineering/src/labels.py:82-84 | every septic-shock row with an admission of its key appears, timed |
| Labels.TimedMergeRows | sepsis-predict/feature-engineering/src/labels.py:82-84 | the timed merged rows are exactly the matching pairs with both time columns |
| Labels.MergeAndCreateTimes | sepsis-predict/feature-engineering/src/labels.py:82-84 | merge_and_create_times: a new frame whose rows are exactly the septic-shock rows joined with their admissions, each with relative_charttime and index_time |
| Labels.RelativeBelowFifteen | sepsis-predict/feature-engineering/src/labels.py:196 | relative_charttime < 15 h iff charttime − admittime < 54000 s: the partition point is exactly fifteen hours |
| Labels.CheckExclude | sepsis-predict/feature-engineering/src/labels.py:226-229 | the excluded hadm_ids are exactly those with a septic-shock row before fifteen hours |
| Labels.Survivors | sepsis-predict/feature-engineering/src/labels.py:196-197 | a row survives iff no row of its admission has septic shock before fifteen hours (the exclusion is admission-scoped) |
| Labels.CheckPositive | sepsis-predict/feature-engineering/src/labels.py:221-224 | the positive hadm_ids are exactly those with septic shock at fifteen hours or later |
| Labels.CheckNegative | sepsis-predict/feature-engineering/src/labels.py:215-219 | the negative hadm_ids are exactly the present admissions none of whose rows has septic shock |
| Labels.SurvivorsKeepAdmission | sepsis-predict/feature-engineering/src/labels.py:196-199 | a surviving admission keeps all its rows, so its positive, negative and presence tests are unchanged by the exclusion |
| Labels.LabelPartition | sepsis-predict/feature-engineering/src/labels.py:196-204 | for a surviving admission with relative times, positive iff not negative: the two label sets are disjoint and cover it |
| Labels.FirstIsLatest | sepsis-predict/feature-engineering/src/labels.py:207-208 | in (subject ascending, admittime descending) order, a subject's first row has its largest admittime |
| Labels.LatestPerSubject | sepsis-predict/feature-engineering/src/labels.py:207-208 | each kept row has the maximal admittime among its subject's rows |
| Labels.EverySubjectLabelled | sepsis-predict/feature-engineering/src/labels.py:207-208 | every subject keeps a row |
| Labels.LabelMeaning | sepsis-predict/feature-engineering/src/labels.py:198-204 | a surviving row is labelled True iff its admission has septic shock at or after fifteen hours, and False iff it never has septic shock |
| Labels.SurvivorLabelled | sepsis-predict/feature-engineering/src/labels.py:197-204 | every surviving row is labelled with its admission's label |
| Labels.LabelledFrom | sepsis-predict/feature-engineering/src/labels.py:203-204 | every labelled row is a surviving row with its admission's label |
| Labels.ProjectedFrom | sepsis-predict/feature-engineering/src/labels.py:210 | every projected row is the projection of a kept row |
| Labels.ProjectedInto | sepsis-predict/feature-engineering/src/labels.py:210 | every kept row's projection is in the output |
| Labels.LatestAmongSurvivors | sepsis-predict/feature-engineering/src/labels.py:207-208 | each output row's admittime is at least that of every surviving row of its subject |
| Labels.SurvivingSubjectsLabelled | sepsis-predict/feature-engineering/src/labels.py:207-210 | every subject with a surviving row has an output row |
| Labels.LatestRowMeaning | sepsis-predict/feature-engineering/src/labels.py:196-208 | each kept row comes from the input, survives the exclusion, and is labelled True iff late shock, False iff never shocked |
| Labels.LabelledRowsSound | sepsis-predict/feature-engineering/src/labels.py:196-210 | output rows come from surviving input rows, their labels mean late shock / never shocked, and their subjects are distinct |
| Labels.GetShockLabels | sepsis-predict/feature-engineering/src/labels.py:195-210 | get_shock_labels: each output row comes from the input and its admission is not excluded; label True iff shock at ≥ 15 h, False iff never shocked; one row per subject, with the maximal admittime among the subject's surviving rows; every surviving subject has a row |
| Features.WindowedDx | sepsis-predict/feature-engineering/src/features.py:64-66 | keeps exactly the merged rows with admittime ≤ dischtime < index_time, renaming dischtime to diagnosis_time |
| Features.DiagnosisMergeRow | sepsis-predict/feature-engineering/src/features.py:58-61 | a merged row joins an admission and a diagnosis on (subject_id, hadm_id), and a label row on subject_id only |
| Features.DiagnosisMergeHas | sepsis-predict/feature-engineering/src/features.py:58-61 | every such admission, diagnosis and label row triple is in the merge |
| Features.GetDiagnosesSound | sepsis-predict/feature-engineering/src/features.py:58-66 | every output row comes from a matching triple inside the window |
| Features.GetDiagnosesComplete | sepsis-predict/feature-engineering/src/features.py:58-66 | every matching triple inside the window gives an output row |
| Features.GetDiagnoses | sepsis-predict/feature-engineering/src/features.py:55-66 | get_diagnoses: exactly the windowed (admission, diagnosis, subject's label) rows; each diagnosis_time is before its index_time |
| Features.PatientCountBounds | sepsis-predict/feature-engineering/src/features.py:111-112 | a code's distinct-patient count is at most its number of rows, and at least one when the code occurs |
| Features.IcRows | sepsis-predict/feature-engineering/src/features.py:111-114 | each IC row carries its code and the information value of the code's distinct-patient count |
| Features.IcRowsCodes | sepsis-predict/feature-engineering/src/features.py:111-117 | the IC rows cover exactly the codes of the rows they are built from |
| Features.CalcIc | sepsis-predict/feature-engineering/src/features.py:111-118 | calc_ic: one row per distinct code, covering exactly the codes of the input, with IC computed from the number of distinct subjects having the code |
| Features.FilterIcSound | sepsis-predict/feature-engineering/src/features.py:152-156 | every kept row is an input row whose code's IC is in [4, 9] |
| Features.FilterIcComplete | sepsis-predict/feature-engineering/src/features.py:152-156 | every input row whose code's IC is in [4, 9] is kept |
| Features.FilterIc | sepsis-predict/feature-engineering/src/features.py:152-156 | filter_ic: exactly the input rows whose code has an IC in [4, 9], both ends inclusive, with the IC column dropped |
| Features.FilterIcByCount | sepsis-predict/feature-engineering/src/features.py:152-156 | filtering by calc_ic's table keeps a row iff the information value of its code's distinct-patient count is in [4, 9] |
| Features.AddTimeBins | sepsis-predict/feature-engineering/src/features.py:207-209 | adds RECENT and PRIOR to every row in place, nothing else changes |
| Features.BinsComplementary | sepsis-predict/feature-engineering/src/features.py:207-209 | exactly one of RECENT and PRIOR is 1, and a gap of exactly six months counts as RECENT |
| Features.BinSums | sepsis-predict/feature-engineering/src/features.py:211-212 | on binned rows, a pair's RECENT sum counts its rows within six months and RECENT + PRIOR counts all its rows |
| Features.PairSumsKeys | sepsis-predict/feature-engineering/src/features.py:212 | the grouped rows cover exactly the (subject, code) pairs of the rows they are built from, distinct pairs giving distinct keys |
| Features.GroupSums | sepsis-predict/feature-engineering/src/features.py:212 | one row per (subject_id, icd9_code) pair of the input, with the sums of its RECENT and PRIOR cells |
| Features.GroupSumsCountRows | sepsis-predict/feature-engineering/src/features.py:207-212 | after binning and grouping, RECENT + PRIOR of a pair equals its number of diagnosis rows, and RECENT its rows within six months |
| Matching.Clamp | sepsis-predict/stat-tests/src/matching.py:95-98 | the result lies in [0.025, 0.975]; above goes to 0.975, below to 0.025, inside is unchanged |
| Matching.ArgMin | sepsis-predict/stat-tests/src/matching.py:166-167 | the chosen pool record is at minimal distance from the treated record (the first such in table order) |
| Matching.MatchStepMeaning | sepsis-predict/stat-tests/src/matching.py:161-169 | a treated record is skipped, with the pool unchanged, iff no pool record is within the threshold; otherwise the chosen record is within the threshold, at minimal distance among the pool, and it alone leaves the pool |
| Matching.GreedyMatchAdvance | sepsis-predict/stat-tests/src/matching.py:159-169 | visiting the next treated record moves its pair, if any, from the matches still to come to the matches made |
| Matching.CaliperMatch | sepsis-predict/stat-tests/src/matching.py:154-169 | caliper_match splits the records by oxy_drop and returns the greedy matches of the treated records against the untreated pool under threshold spread × caliper |
| Matching.MatchInOrder | sepsis-predict/stat-tests/src/matching.py:159-169 | the loop over the treated records with a shrinking pool returns exactly the greedy matches |
| Matching.GreedyMatchSound | sepsis-predict/stat-tests/src/matching.py:159-168 | every match is a (treated subject, untreated subject) pair from the inputs, at distance within the threshold |
| Matching.GreedyMatchSize | sepsis-predict/stat-tests/src/matching.py:159-169 | there are at most min(number of treated, number of untreated) matches |
| Matching.GreedyMatchNoReplacement | sepsis-predict/stat-tests/src/matching.py:169 | with distinct untreated ids, no untreated id appears in two matches and each comes from the pool |
| Matching.GreedyMatchTreatedOnce | sepsis-predict/stat-tests/src/matching.py:157-168 | with distinct treated ids, each treated id appears in at most one match, and only treated ids appear first in a pair |
| Matching.WhereSubjectsDistinct | sepsis-predict/stat-tests/src/matching.py:154-155 | splitting a table with one record per subject by oxy_drop keeps one record per subject in each group |
| Matching.CaliperMatchDisjoint | sepsis-predict/stat-tests/src/matching.py:140-143 | with one record per subject, no subject id appears twice among the matches of caliper_match: not as two treated ids, not as two untreated ids, and not as the treated id of one match and the untreated id of another |

## Left out

- data-fusion/train_utils.py is not part of this model. It wraps model fitting, feature selection, scaling and RMSE from libraries, all in floating point.
- `plot_logit_scores` is not modelled: it renders plots and writes files.
- Floating-point maths is given as input. The logarithm of `safe_logit` is not computed: each record carries its logit. The spread (`np.std`) behind the caliper threshold is a parameter. The `-log2(count / all_patients)` of `calc_ic` is a function parameter of the patient count and the cohort size.
- The pivot of `get_diagnosis_features` (features.py:216-224) is not modelled: its cells count grouped rows, not diagnosis occurrences. The model stops at the per-(subject, code) RECENT/PRIOR sums.
- Joins are modelled by row membership, not by row multiplicity or row order. pandas orders outer-join rows by key; the model puts left rows first and then the right-only rows, and no contract depends on that order.
- Merge suffix columns, dtype coercion, the groupby/apply index quirk of `impute_missing`, and index alignment in `caliper_match` are pandas mechanics with no counterpart here. The alignment leaves distances computed over the pool only, which is what the model does.
- Only the three flag columns that the septic-shock rule reads are carried through the forward fill. Other columns of the merged septic-shock table are not modelled.
- Rows whose group key (subject_id, hadm_id, icustay_id) is itself missing are not modelled. The model's keys are always present integers.
- Trewscore.ImputeMissing: rows are put in charttime order by a stable sort. pandas' default sort is not stable, so rows with equal charttimes may be ordered differently in the source, and the fill between such rows can differ. The `FillStays` lemmas, `ImputeFromEarlier` and `ImputeMissingOnlyIfUnobserved` hold for any order that keeps each stay's charttimes ascending. `ImputeKeepsObserved` and `ImputeTakesMostRecent` speak of the model's own sorted order. `ImputeIdempotent` depends on the stable tie order: with an unstable sort, two rows of one stay at the same charttime can swap on a second pass, and a flag left missing the first time can then be filled.
- Labels.GetShockLabels: ties on (subject_id, admittime) are broken by a stable sort, whereas pandas may keep any of the tied rows. The contract states only properties that hold for every tie order: a maximal admittime, and labels that depend on the admission alone.
- Matching.CaliperMatch: among equally near untreated records the model takes the first in table order, whereas pandas' unstable sort may take any of them. Matching.MatchStepMeaning states only that the chosen record is at minimal distance.
- Matching.CaliperMatch: the source's `.loc` lookup and `unique()` assume subject ids are unique in the propensity table. The no-replacement and at-most-once lemmas assume distinct ids; the method itself treats each record on its own.
- Timestamps are whole seconds. Six months is 6 × 30.44 days = 15,780,096 s, which is exact at that resolution.
- Columns that the source adds in place appear as `Option` fields that are `None` before the adding method runs. Diagnosis time is the admission's dischtime, as in the source.
