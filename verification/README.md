# zoe-data-prep: a Dafny model of the cleaning pipeline

zoe-data-prep cleans two CSV exports of a symptom-tracking study:

- the patient registry, one row per patient;
- the assessment set, one row per self-reported assessment, keyed by patient id.

Every row carries a filter-status word. Each validation step ORs a flag bit into it. Later steps read the words back:

- to count what was filtered;
- to carry the registry's verdict over to that patient's assessments;
- to discard every assessment whose word is not zero.

Other steps work on each patient's run of assessments, after sorting by patient id and update time:

- the covid test result must progress validly;
- assessments made on the same calendar day are merged into one row.

This project models that core in Dafny and proves what the pipeline relies on.

Modules, one file each:

- `Basics`: `Option`/`Result`, Python slicing, and Python's string order.
- `Flags`: the flag constants and the counting and clearing helpers.
- `Text`: the date-slicing helpers.
- `Ranges`: the range-predicate factories.
- `FieldFilter`: the generic field validator, the registry checks and the temperature check.
- `Grouping`: the per-patient run iterator.
- `CrossDataset`: the join of the two datasets, the patient-filtered rule and the territory rule.
- `Consistency`: the test/result rule and the health/symptom rule.
- `Categorical`: categorical encoding and `map_between_categories`.
- `Progression`: the covid progression validator.
- `DayMerge`: the discard step, the created-field compaction, the merged-row count and `MergeAssessmentRows`.
- `Histogram`: `build_histogram`.
- `InputLengths`: `check_input_lengths`.

Modelling choices:

- A status word, an unbounded Python integer, is modelled as the set of its 1-bits.
  - `|`, `&` and `& ~` become `+`, `*` and `-`.
  - 0 is `{}`.
  - `0xffffffff` is the set of bits 0..31.
- A row is its field list (`seq<string>`). The loader's `(index, fields)` pair keeps only the fields.
- Status lists that the pipeline updates in place are arrays.
- A visitor passed to the grouping iterator is modelled by the sequence of `[start, end]` ranges the iterator visits. The visitor is then driven over that sequence.
- Numeric parsing (`is_int`, `to_int`, `is_float`, `to_float`) is a parameter. So are numeric values, as `real`.

## Model

| member | source | states |
|---|---|---|
| Flags.CountFlagSet | utils.py:34-39 | returns the number of words with some bit of the flag set |
| Flags.CountFlagNotSet | utils.py:26-31 | returns the number of words with no bit of the flag set |
| Flags.CountFlagEmpty | utils.py:18-23 | returns the number of zero words |
| Flags.SetPlusNotSet | utils.py:26-39 | every word is counted exactly once, as set or as not set |
| Flags.EmptyAtMostNotSet | utils.py:18-31 | no flag is set in a zero word, so the zero count is at most any not-set count |
| Flags.NotSetAllIsEmpty | pipeline.py:326 | for words holding only flags, "no bit of FILTERA_ALL set" is "zero" |
| Flags.ZeroFlagNeverSet | pipeline.py:319 | a zero flag such as FILTER_MISSING_TEMP is never counted as set |
| Flags.Cleared | utils.py:232-235 | each cleared word has none of the cleared bits and keeps every other bit |
| Flags.ClearSetFlag | utils.py:232-235 | the array afterwards holds `Cleared` of its old contents |
| Flags.ClearedIdempotent | utils.py:232-235 | clearing twice is clearing once |
| Flags.ClearedNotCounted | utils.py:232-235 | after a clear, no word counts as having a cleared bit |
| Flags.ClearAllIsClean | pipeline.py:538 | clearing FILTERA_ALL leaves every flag-only word zero |
| Text.TimestampToDay | utils.py:42-45 | an empty field stays empty; a field of at least ten characters gives `YYYY-MM-DD` from its year, month and day slices |
| Text.DatetimeToSeconds | utils.py:180-181 | the result is the first 19 characters with the separators normalised |
| Text.TimestampToDayIdempotent | utils.py:42-45 | reducing to the day twice is reducing once |
| Text.DatetimeToSecondsIdempotent | utils.py:180-181 | truncating to seconds twice is truncating once |
| Text.DayIsSecondsPrefix | utils.py:42-45 | the day is the first ten characters of the seconds-truncated timestamp |
| Text.SameDayIffSameDayText | pipeline.py:739-747 | two timestamps have equal slice triples iff their day strings are equal |
| Ranges.ExclusiveRange | pipeline.py:164-167 | `valid_range_fac` accepts exactly `f_min < x < f_max`, so not the bounds |
| Ranges.InclusiveRange | pipeline.py:170-173 | `valid_range_fac_inc` accepts exactly `f_min <= x <= f_max`, bounds included |
| Ranges.DefaultAlwaysValid | utils.py:127-136 | both utility factories accept their default value |
| Ranges.DefaultVariantsAgree | utils.py:127-136 | on numbers, the utility factories agree with the pipeline's |
| Ranges.OtherTextFails | utils.py:127-136 | text other than the default cannot be compared, which is modelled as `None` |
| FieldFilter.FilterWord | pipeline.py:188-197 | an unconvertible value adds `f_missing`, an out-of-range value adds `f_bad`, and a valid one leaves the word unchanged |
| FieldFilter.ZeroFlagIsNoOp | pipeline.py:188-197 | a zero flag leaves the word as it was on its branch |
| FieldFilter.BadFlagIffOutOfRange | pipeline.py:188-197 | for a convertible value, the bad flag ends up set iff the value fails the range |
| FieldFilter.FilterList | pipeline.py:188-197 | each status word becomes `FilterWord` of its value, and words past the list are unchanged |
| FieldFilter.FilterFields | pipeline.py:176-186 | the same as `FilterList`, applied to one column of the rows |
| FieldFilter.PatientWord | pipeline.py:499-530 | the four registry checks never clear a bit and add only the yob, height, weight and BMI missing and bad flags |
| FieldFilter.PatientCleanIff | pipeline.py:499-530 | a clean registry row stays clean iff yob, height, weight and BMI all parse and lie in their inclusive ranges |
| FieldFilter.ValidatePatients | pipeline.py:499-530 | each registry word becomes `PatientWord` of its row, i.e. the four checks in order |
| FieldFilter.FilterTemperatures | pipeline.py:569-570 | only a numeric temperature outside (35, 42) sets FILTER_BAD_TEMP; a missing one sets nothing |
| Grouping.Runs | utils.py:139-157 | every group the reference grouping forms lies inside the input |
| Grouping.RunsPartition | utils.py:139-157 | the reference grouping tiles every input with maximal runs of equal ids, in order |
| Grouping.TilesCoverOnce | utils.py:139-157 | every index lies in exactly one group |
| Grouping.SingleRecordIsOneGroup | utils.py:139-157 | a single record forms one group of its own |
| Grouping.IterateOverPatientAssessments | pipeline.py:261-278 | as written: an empty id column, or a loop bound past the column, raises an IndexError (`None`); one record is never visited; otherwise it visits exactly the maximal runs |
| Grouping.IterateOverPatientAssessments2 | utils.py:160-177 | an empty id list raises (`None`); otherwise it visits each maximal run with the run's patient id, and nothing for a single id |
| Grouping.IterateGroups | utils.py:139-157 | corrected pass: visits exactly the maximal runs of every input |
| Basics.Below | pipeline.py:252-254 | Python's string `<`: it is irreflexive, and a proper prefix is below the longer string |
| Basics.BelowTransitive | pipeline.py:252-254 | the string order is transitive |
| Basics.BelowTotal | pipeline.py:252-254 | any two strings are equal or ordered one way |
| CrossDataset.MapPatientIds | pipeline.py:246-258 | each callback pairs rows with equal ids, with assessment indices increasing; on sorted inputs an assessment is visited iff its id is in the registry |
| CrossDataset.NotInRegistry | pipeline.py:252-255 | on a sorted registry, an id skipped by the merge is not in the registry |
| CrossDataset.AdvanceAssessment | pipeline.py:254-258 | moving to the next assessment keeps every skipped registry id below it |
| CrossDataset.CleanIds | pipeline.py:546-549 | the set holds exactly the ids of registry rows whose word is zero |
| CrossDataset.FlagPatientFiltered | pipeline.py:550-552 | an assessment gains AFILTER_PATIENT_FILTERED iff its patient id is not a clean registry id |
| CrossDataset.CheckAssessmentPatients | pipeline.py:538-552 | after the clear, a word is AFILTER_PATIENT_FILTERED iff no clean registry row has its patient id, and zero otherwise |
| CrossDataset.FlagOtherTerritory | pipeline.py:411-420 | with a territory given, exactly the rows from another country gain PFILTER_OTHER_TERRITORY |
| Consistency.TestWord | pipeline.py:588-591 | NOT_TESTED is set iff a result was given without a test, and TESTED iff a test has no result; no other bit changes |
| Consistency.TestFlagsExclusive | pipeline.py:588-591 | a row never gets both test flags, and it gets none iff test and result agree |
| Consistency.HealthWord | pipeline.py:627-631 | INCONSISTENT_SYMPTOMS is set iff a healthy row has a symptom, and NO_SYMPTOMS iff a not-healthy row has none; no other bit changes |
| Consistency.HealthFlaggedIff | pipeline.py:627-631 | a row is flagged iff its status contradicts its symptoms; other status values are never flagged |
| Consistency.ApplyHealthConsistency | pipeline.py:627-631 | each word becomes `HealthWord` of its row |
| Categorical.TablesCoverFields | pipeline.py:337-365 | every symptom and exposure field has a table, and each table maps `''` to False |
| Categorical.ToCategorical | utils.py:82-86 | succeeds iff every value is a key; the result maps each value through the table; otherwise it reports a missing key |
| Categorical.EncodeField | pipeline.py:219-224 | succeeds iff every value of the column is a key; encodes row by row; otherwise it reports a value that occurs and is not a key |
| Categorical.EncodeSymptoms | pipeline.py:604-612 | encodes every symptom column, and `any_symptoms[i]` is true iff some column is true at row `i` |
| Categorical.EncodeExposures | pipeline.py:614-617 | encodes every exposure column; it fails iff some value has no mapping |
| Categorical.MapBetweenCategories | utils.py:75-79 | succeeds iff every key of the first map is in the second; the result is keyed by the first map's values, and the last key in dict order wins |
| Progression.CodeIndexesKey | pipeline.py:656-661 | `key_to_value` indexes `sanitised_covid_results_key` |
| Progression.StateOf | pipeline.py:644-649 | the four known results and nothing else are test states |
| Progression.Advance | pipeline.py:673-677 | the running maximum never decreases, and after yes or no only `''` or the same result is allowed |
| Progression.ValidTransitions | pipeline.py:644-649 | every allowed value is one of the four keys, and `''` and the current maximum are always allowed |
| Progression.Upgrades | pipeline.py:650-655 | every upgrade is an allowed value with a higher code, and a final result has no upgrades |
| Progression.TablesMatchAdvance | pipeline.py:644-655 | a key is in `valid_transitions` iff `Advance` accepts it, and in `upgrades` iff it is accepted with a higher code |
| Progression.Transition | pipeline.py:672-677 | the value must be allowed from the running maximum, and an upgrade replaces the maximum |
| Progression.ScanValid | pipeline.py:665-683 | the scan succeeds iff the group is a valid progression; it then ends at the group's highest result |
| Progression.ScanMonotone | pipeline.py:665-683 | sanitised codes never decrease, yes and no are absorbing, and yes and no never both occur |
| Progression.ScanPrefix | pipeline.py:669-678 | the sanitised prefix of a valid group is the scan of its prefix |
| Progression.ScanNonePersists | pipeline.py:673-675 | once a group is invalid, every longer prefix is invalid |
| Progression.ExampleProgression | pipeline.py:665-683 | `'', waiting, yes` sanitises to 0, 1, 3 |
| Progression.ExampleRegression | pipeline.py:665-683 | `yes, no` is rejected |
| Progression.SanitiseGroup | pipeline.py:667-678 | reports invalid iff the scan fails, and otherwise writes the scan's codes over the group |
| Progression.InvalidateGroup | pipeline.py:680-683 | zeroes the group's codes and flags it FILTER_INVALID_COVID_PROGRESSION |
| Progression.ValidateGroup | pipeline.py:665-683 | the group ends up sanitised, or zeroed and flagged; nothing outside it changes |
| Progression.ValidateGroups | pipeline.py:665-683 | driving `inner_` over ordered groups leaves every group done and every row outside the groups unchanged |
| Progression.ValidateCovidProgression | pipeline.py:687-691 | with no assessments the grouping pass raises; with two or more, every maximal run is validated; a lone record is left untouched |
| DayMerge.DiscardFiltered | pipeline.py:704-710 | the remaining rows are exactly the rows with a zero word, in order |
| DayMerge.KeptCount | pipeline.py:708-711 | as many rows remain as there are zero words |
| DayMerge.KeptIsSelection | pipeline.py:708-710 | remaining row `k` is the row at the `k`-th zero-word index |
| DayMerge.KeptIndicesExact | pipeline.py:708-710 | the kept indices are increasing and are exactly those of the zero words |
| DayMerge.KeptPrefix | pipeline.py:708-710 | discarding from a prefix keeps a prefix of the full discard |
| DayMerge.CompactColumnAsWritten | pipeline.py:713-721 | as written: the column holds the clean entries among the first `len(remaining)` indices, padded with False |
| DayMerge.CompactionMisaligned | pipeline.py:713-721 | with statuses `[filtered, clean]`, the compacted column is `[False]`, though the kept value is `True` |
| DayMerge.CompactColumn | pipeline.py:713-721 | corrected: the column holds exactly the clean rows' values, in order |
| DayMerge.CompactedAligned | pipeline.py:713-721 | entry `k` of a compacted column and remaining row `k` come from the same source row |
| DayMerge.CountSameDay | pipeline.py:735-749 | adds the number of adjacent same-day pairs in the group |
| DayMerge.ChangesPlusSame | pipeline.py:738-747 | each adjacent pair is a same-day pair or a day change |
| DayMerge.CountGroups | pipeline.py:798-801 | the total is the sum of same-day pairs over the visited groups |
| DayMerge.OutTotalIsRemaining | pipeline.py:802 | over a tiling, the merged rows number the rows minus the same-day pairs |
| DayMerge.MergedFieldCount | pipeline.py:798-802 | with every assessment discarded the grouping pass raises (`None`); otherwise the count covers the same-day pairs of every run, and `len(remaining) - count` is the number of output rows |
| DayMerge.MergeAssessmentRows.constructor | pipeline.py:757-761 | starts at output row 0 and establishes the class invariant that output rows and created fields have the same columns |
| DayMerge.MergeAssessmentRows.PopulateRow | pipeline.py:763-770 | overwrites the current output row's ids and timestamps, and ORs the source row's created fields into it |
| DayMerge.MergeAssessmentRows.RowDate | pipeline.py:781-782 | the slice triple of the row's `updated_at` |
| DayMerge.MergeAssessmentRows.Advance | pipeline.py:780-792 | moves to a new output row iff the day changes, then populates it |
| DayMerge.MergeAssessmentRows.Call | pipeline.py:772-796 | advances the output index by one plus the group's day changes, and folds each source row into the slot of its day |
| DayMerge.MergedFrame | pipeline.py:772-796 | a group's fold leaves every other output row unchanged |
| DayMerge.MergedIdent | pipeline.py:765-768 | a day's output row carries the ids and timestamps of that day's last assessment |
| DayMerge.MergedFlags | pipeline.py:769-770 | a created field of an output row is true iff it was already true or true in some assessment of that day |
| DayMerge.MergeAllIdent | pipeline.py:765-780 | over the whole table, for every group and every assessment that is the last of its day, the output row the group's day changes send it to carries that assessment's ids and timestamps |
| DayMerge.MergeAllFlags | pipeline.py:769-780 | over the whole table, a created field of every output row is true iff it was already true or some assessment of some group merged into that row has it set |
| DayMerge.MergeGroups | pipeline.py:817-818 | driving the merger over the groups ends at the total output count |
| DayMerge.MergeDays | pipeline.py:798-819 | with no rows left the grouping pass raises; otherwise, with the output sized from the merged-row count, the final index equals the output length, exactly filling it |
| Histogram.BuildHistogram | utils.py:48-60 | pairs each counted value with its number of occurrences; keys are distinct and every counted value is a key |
| Histogram.HistogramTotal | utils.py:48-60 | the counts of a histogram add up to the number of values |
| Histogram.HistogramCountsRecords | utils.py:48-60 | without a filter, the counts add up to the record count; with one, to the number of unmarked records |
| InputLengths.CheckInputLengths | utils.py:108-124 | as written: an arity mismatch is reported; otherwise it passes iff every length after a non-zero one equals it |
| InputLengths.ZeroLengthSlipsThrough | utils.py:113-119 | lengths `[0, 1]` pass although they differ |
| InputLengths.AcceptedNonZeroFirst | utils.py:113-119 | when the first collection is non-empty, the guard as written is exact |
| InputLengths.CheckInputLengthsCorrected | utils.py:108-124 | corrected: passes iff all lengths are equal |

## Left out

- Loading and printing are not modelled: CSV parsing, `enumerate_fields`, `PatientDataset`, `show` and every `print`. This includes the `i % 1000000` progress dot in `MergeAssessmentRows.__call__`.
- Sorting the two datasets is not modelled. The join lemmas state sortedness as a hypothesis, and grouping works on whatever order it is given.
- The parsers (`is_int`, `is_float`, `to_int`, `to_float`) are parameters, and numbers are `real`. Floating-point rounding is not modelled.
- Fahrenheit-to-Celsius conversion of temperatures is not modelled: `FieldFilter.FilterTemperatures` takes the already converted list.
- `sort_mixed_list`, `build_histogram_from_list` and the pipeline's own `build_histogram` are not modelled: they only feed printed diagnostics.
- The test/result loop header unpacks each row as `(ir, r)`. `Consistency.TestWord` models the loop body on each row, not that header.
- Histogram.BuildHistogram: the result is stated as a histogram of the counted values, not in dict insertion order. A missing `tx` is modelled as the identity. A non-empty `filtered_records` shorter than the dataset raises an IndexError in the source; the model requires it to cover the dataset instead.
- InputLengths.CheckInputLengths: the `assert` messages and the `isinstance` checks are not modelled. Each collection is modelled by its length.
- DayMerge.MergeDays: the created fields are a parameter. The source builds them with the loop modelled by `DayMerge.CompactColumnAsWritten`, which is misaligned (see Findings). `MergeDays`' contract holds for any created columns of the right width. The output table is an array of row records, not a dict of columns.
- DayMerge.CompactColumnAsWritten: columns are boolean. The loop also copies the 0..3 progression codes (pipeline.py:696) into a bool column (pipeline.py:714). That cast is not modelled. It makes 'no' (2) and 'yes' (3) both True, so the compacted column cannot tell a negative result from a positive one.
- Categorical.ToCategorical: the result is assumed to have the table's value type. The source allocates the result with `np.zeros_like(field, dtype=field.dtype)` (utils.py:83), so each mapped value is cast to the field's dtype. For a string field mapped to booleans, the source returns strings. That cast is not modelled.
- DayMerge.Put: a write outside the output table is a no-op. `DayMerge.MergeDays` proves that no such write happens.
- Grouping.IterateOverPatientAssessments: a raise is modelled as `None`. The visitor calls made before the raise are not reported.
- Progression.ValidateCovidProgression: when the whole set has a single record, its sanitised value stays as it was. The model does not capture the uninitialised numpy value.
- The registry's assessment-count filter (`PFILTER_NO_ASSESSMENTS`, `PFILTER_ONE_ASSESSMENT`) is commented out in the source and not modelled.

## Findings

| source | as written | input that shows it | evidently intended | confidence | as-written member | corrected member |
|---|---|---|---|---|---|---|
| pipeline.py:261-278 | the loop starts at `i = 1` and reads `fields[0]` unconditionally | one record: nothing is visited; no records: an IndexError | every patient's run is visited, including a single record | not executed | Grouping.IterateOverPatientAssessments, Grouping.SingleRecordIsOneGroup | Grouping.IterateGroups |
| utils.py:113-119 | `if not length` treats a remembered length of 0 as no length | lengths `[0, 1]` pass | only equal lengths pass | not executed | InputLengths.CheckInputLengths, InputLengths.ZeroLengthSlipsThrough | InputLengths.CheckInputLengthsCorrected |
| pipeline.py:713-721 | the compaction loop runs over `range(len(remaining_asmt_fields))` but indexes the unfiltered status and column | statuses `[filtered, clean]` with column `[False, True]` compact to `[False]` | the column keeps the values of the kept rows, aligned with them | not executed | DayMerge.CompactColumnAsWritten, DayMerge.CompactionMisaligned | DayMerge.CompactColumn |
