# Salary pipeline: cleaning and feature derivation, in Dafny

This project models the two deterministic stages of a small salary-prediction
pipeline and proves properties about them.

- **Cleaning** (`project_pwc/dataset.py`):
  - `merge_data` left-joins the people table with the salary table and then with the
    description table, on `id`.
  - `fill_missing_values` drops the rows without a Salary and fills a missing
    Description with `"No description"`.
  - It fills missing Age and Years of Experience with the median of what survived the
    drop, and missing Gender, Education Level and Job Title with `"Missing"`.
  - It casts Age and Years of Experience to integers.
- **Feature derivation** (`project_pwc/features.py`, the body of `main` between reading
  and writing the CSV):
  - the optional `Salary_log` column;
  - one-hot encoding of Gender into `gender_<value>` columns;
  - the `edu_map` education ordinal;
  - the `pd.cut` experience binning and its `exp_map` ordinal;
  - the `cols_to_drop` loop, the `rename_map` loop, the `gender_Missing` drop and the
    bool cast.

## Modules

- `Wrappers`: `Option` and `Result`.
- `Statistics`:
  - `Series.median()` over exact reals, as the middle of a sorted sequence;
  - `astype(int)` on a finite value, as truncation toward zero.
- `Collation`: Python's string order. `get_dummies` sorts the distinct strings with
  it to lay out its indicator columns.
- `Schema`: the column labels of a frame as a `seq<string>`, with these list edits:
  - drop a label if present (`Keep`, `Drop`, `DropAll`);
  - assign, which appends a new label (`Appended`);
  - rename in place (`Renamed`, `RenameAll`, `RenameName`).
- `Frames`: a DataFrame as a value.
  - It holds the ordered labels, a map from each label to its column of cells, and a
    height.
  - A cell is NaN, a number, a string or a boolean.
  - The column operations of `main` are functions from frame to frame.
- `Dataset`: the cleaning stage over rows of `Option` fields.
  - `Cleaned` is the reference definition, row by row.
  - `FillMissingValues` is the step-by-step method the source runs, proved equal to
    `Cleaned`.
- `Features`: the feature stage.
  - `DerivedFeatures` is the reference definition, one stage after another.
  - `DeriveFeatures` is the sequence of in-place edits (methods with loops), proved
    equal to it.
  - `FeatureColumns` predicts the result's labels from the input's labels alone.
- `Pipeline`: the records that cleaning returns, read back as the feature stage's table
  (`ToFrame`), and what the feature stage then makes of them.

Numbers are exact reals. A median that falls halfway between two values is therefore
kept exactly, and the integer cast truncates it toward zero. The code raises in three
places, and the model gives each an error result rather than a precondition:

- `astype(int)` on a column that still holds NaN gives `NullInIntegerCast`;
- `np.log(df["Salary"])` without a Salary column gives `KeyError`;
- `pd.cut` on a column holding a string gives `TypeError` (a boolean is binned as 0 or 1).

A one-hot or rename step that would create a second column with an existing label is
refused with `DuplicateLabel`. pandas would go on with duplicate labels, which a frame
keyed by label cannot hold.

Points where the code's behaviour is easy to misread:

- **Education ordinal label.** The education ordinal keeps the label
  `Education_Level_ordinal`. `rename_map` has no entry for it, so no
  `education_level_ordinal` column is ever made (`Features.FeatureColumnsEducation`).
- **No Salary at all.** A table in which no row has a Salary is not an error. Every row
  is dropped, nothing is left to cast, and the result is empty (`Dataset.CleanedEmpty`).
- **Missing medians.** Cleaning fails only when rows survive but none of them has an
  Age, or none has a Years of Experience. Age is cast first, so it is the one reported
  (`Dataset.CleanedFailsOnAge`, `Dataset.CleanedFailsOnExperience`).
- **Unknown categories.** An unknown education level, or a NaN, maps to NaN (`edu_map`
  through `Series.map`). A negative number of years falls in no bin and gives NaN. Both
  propagate; neither is an error.
- **Salary ≤ 0 under the log.** This is not checked. The log is a parameter, applied
  cell by cell.

## Model

| member | source | states |
|---|---|---|
| Dataset.MergeData | project_pwc/dataset.py:18-23 | with unique ids in the salary and description tables, one row per person, in order, with the person's own fields; Salary and Description are those of the matching row, or NaN when no row matches |
| Dataset.SalaryOf | project_pwc/dataset.py:20 | the left join's Salary is the first matching row's, NaN when none matches |
| Dataset.DescriptionOf | project_pwc/dataset.py:21 | the left join's Description is the first matching row's, NaN when none matches |
| Dataset.DropMissingSalary | project_pwc/dataset.py:27 | `dropna(subset=["Salary"])` keeps exactly the rows that have a Salary, and every kept row has one |
| Dataset.DropMissingSalaryAppend | project_pwc/dataset.py:27 | the drop distributes over concatenation, so it keeps the rows in their original order |
| Dataset.DropMissingSalaryKeepsComplete | project_pwc/dataset.py:27 | a table whose rows all have a Salary loses nothing |
| Dataset.Present | project_pwc/dataset.py:33-37 | the values `median()` looks at are the values of the non-null cells, and there are none exactly when every cell is NaN |
| Dataset.PresentCounts | project_pwc/dataset.py:33-37 | each value occurs among them as many times as its cell occurs in the column, so the median sees the column's values with their multiplicities |
| Dataset.FillMissingValues | project_pwc/dataset.py:25-46 | the step-by-step procedure (drop, Description fill, two median fills, categorical loop, two casts) returns exactly `Cleaned` of its input |
| Dataset.Impute | project_pwc/dataset.py:31-37 | both medians are taken over the rows that survived the drop, before any fill; each row gets its Description sentinel and its median fills |
| Dataset.FillCategorical | project_pwc/dataset.py:39-41 | the `cat_cols` loop fills Gender, Education Level and Job Title with "Missing" on every row and touches no other field |
| Dataset.FillCategoricalColumns | project_pwc/dataset.py:39-41 | filling the three columns one after the other is one fill of all three |
| Dataset.CastIntegerColumns | project_pwc/dataset.py:43-44 | Age is cast first: a NaN left in Age fails the cast on Age, then a NaN in Years of Experience fails on it, else both are truncated |
| Dataset.CleanedByCast | project_pwc/dataset.py:25-46 | the cast of the filled rows is `Cleaned` of the input: the link the method's proof rests on |
| Dataset.CastOutcome | project_pwc/dataset.py:33-44 | after the fills, an Age (Years of Experience) cell is still NaN exactly when rows survive and there is no median to fill with |
| Dataset.CleanedEmpty | project_pwc/dataset.py:27-44 | a table with no Salary anywhere is cleaned into the empty table without error |
| Dataset.CleanedRows | project_pwc/dataset.py:25-46 | a successful clean has one row per surviving row, each cleaned with the two medians |
| Dataset.CleanedFailsOnAge | project_pwc/dataset.py:33-43 | the clean fails on Age exactly when some row keeps its Salary and no such row has an Age |
| Dataset.CleanedFailsOnExperience | project_pwc/dataset.py:36-44 | it fails on Years of Experience exactly when some surviving row has an Age and none has a Years of Experience |
| Dataset.CleanKeptFails | project_pwc/dataset.py:43-44 | which cast fails, in terms of the two medians, and that the two failures are distinct |
| Dataset.NoAgeMedian | project_pwc/dataset.py:33 | the Age median is missing exactly when no surviving row has an Age |
| Dataset.NoExperienceMedian | project_pwc/dataset.py:36 | the same for Years of Experience |
| Dataset.CleanedKeepsSalaryRows | project_pwc/dataset.py:27 | the rows returned are the rows with a Salary, in order, each with its id and its Salary unchanged |
| Dataset.CleanedIsComplete | project_pwc/dataset.py:25-46 | no cell of a cleaned row is missing, and its Age and Years of Experience are whole numbers |
| Dataset.CleanedFillsText | project_pwc/dataset.py:31-41 | a present Description, Gender, Education Level or Job Title is kept, and a missing one becomes "No description" or "Missing" |
| Dataset.CleanedImputesAge | project_pwc/dataset.py:33-43 | a present Age is truncated toward zero; a missing one becomes the truncated median, which lies between two Ages of the surviving rows |
| Dataset.CleanedImputesExperience | project_pwc/dataset.py:36-44 | the same for Years of Experience |
| Dataset.AgeMedianWithin | project_pwc/dataset.py:33 | the Age median over the surviving rows lies between two of their Ages |
| Dataset.ExperienceMedianWithin | project_pwc/dataset.py:36 | the Years of Experience median lies between two of their values |
| Dataset.CleanedOfComplete | project_pwc/dataset.py:25-46 | a table of complete rows with whole numbers is returned unchanged |
| Dataset.CleanedIdempotent | project_pwc/dataset.py:25-46 | cleaning a cleaned table changes nothing: nothing is dropped or filled, and the cast is the identity |
| Statistics.Sort | project_pwc/dataset.py:33-36 | the values in ascending order, a permutation of the input |
| Statistics.Median | project_pwc/dataset.py:33-36 | `median()` is absent exactly for no values |
| Statistics.SortedUnique | project_pwc/dataset.py:33-36 | two sorted sequences with the same elements are equal, so the middle is determined by the values alone |
| Statistics.MedianIgnoresOrder | project_pwc/dataset.py:33-36 | the median does not depend on the order of the rows |
| Statistics.MedianWithinRange | project_pwc/dataset.py:33-36 | the median lies between a smallest and a largest value of the input |
| Statistics.MedianOfIntegralsIsHalfIntegral | project_pwc/dataset.py:33-37 | the median of whole numbers is whole or a half value: twice it is whole |
| Statistics.Truncate | project_pwc/dataset.py:43-44 | `astype(int)` truncates toward zero: downward for a positive value, upward for a negative one |
| Statistics.TruncateIntegral | project_pwc/dataset.py:43-44 | a whole number is cast to itself |
| Collation.SortedDistinct | project_pwc/features.py:30 | the distinct strings of a column, strictly sorted in Python's string order |
| Collation.InsertDistinct | project_pwc/features.py:30 | adding a string keeps the sequence strictly sorted, with exactly the old strings and the new one |
| Collation.BelowTransitive | project_pwc/features.py:30 | Python's string order is transitive |
| Collation.BelowTotal | project_pwc/features.py:30 | and total |
| Collation.StrictlySortedIsDistinct | project_pwc/features.py:30 | a strictly sorted sequence has no repeated string |
| Schema.Keep | project_pwc/features.py:61-63 | dropping a set of labels keeps exactly the other labels |
| Schema.KeepAbsent | project_pwc/features.py:62-63 | dropping labels that are not there changes nothing |
| Schema.KeepKeep | project_pwc/features.py:61-63 | two drops in a row are one drop of both sets |
| Schema.KeepDistinct | project_pwc/features.py:61-63 | a drop keeps the labels distinct |
| Schema.KeepPreservesOrder | project_pwc/features.py:61-63 | a drop keeps the relative order of the labels it keeps |
| Schema.DropAllIsKeep | project_pwc/features.py:61-63 | dropping the labels of a list one by one is one drop of all of them |
| Schema.Renamed | project_pwc/features.py:74 | `rename(columns={source: target})` replaces the source label by the target in place and keeps every other label and position |
| Schema.RenamedMembers | project_pwc/features.py:74 | after renaming a present label, the labels are the others plus the target |
| Schema.RenamedAbsent | project_pwc/features.py:73-74 | renaming an absent label changes nothing |
| Schema.RenamedDistinct | project_pwc/features.py:74 | renaming onto a free label keeps the labels distinct |
| Schema.RenameAllPointwise | project_pwc/features.py:72-74 | the rename loop keeps every label's position and sends each label where `rename_map` sends it |
| Schema.RenameAllMembers | project_pwc/features.py:72-74 | the labels after the renames are exactly the renamed old labels |
| Schema.RenameAllDistinct | project_pwc/features.py:72-74 | renames onto free labels keep the labels distinct |
| Schema.BeforeRenameAll | project_pwc/features.py:72-74 | the renames keep the relative order of the labels |
| Schema.DropRenameDropOrder | project_pwc/features.py:53-78 | drops, then renames, then one more drop, keep the order of the labels that survive |
| Frames.Assign | project_pwc/features.py:24-50 | `df[name] = values` overwrites an existing column in its place or appends a new last column, with exactly these cells, and keeps every other column |
| Frames.DropColumn | project_pwc/features.py:63-77 | `drop(columns=[name])` removes exactly that label and keeps the cells of every other column |
| Frames.DropAbsentColumn | project_pwc/features.py:62-63 | dropping an absent column leaves the frame as it is |
| Frames.DropColumns | project_pwc/features.py:61-63 | the drop loop removes its labels from the schema and their columns from the frame, and nothing else |
| Frames.RenameColumn | project_pwc/features.py:74 | a rename onto a free label moves the column's cells under the new label, in the same position; renaming an absent label leaves the frame unchanged |
| Frames.RenameColumns | project_pwc/features.py:72-74 | after the rename loop each old column sits under its renamed label with the same cells |
| Frames.AsBoolColumn | project_pwc/features.py:82 | `astype(bool)` maps each cell to its truth value (NaN is true) |
| Frames.AsBoolColumnOfBool | project_pwc/features.py:81 | casting a column that is already boolean changes none of its cells |
| Frames.CastColumn | project_pwc/features.py:81-82 | one cast changes only its own column, and only when that column is not yet boolean |
| Frames.CastColumns | project_pwc/features.py:80-82 | after the cast loop each named column present is boolean; any other column, and a column already boolean, is untouched |
| Frames.TextValues | project_pwc/features.py:30 | the strings of a column are exactly the strings it holds |
| Frames.DummyNameInjective | project_pwc/features.py:30 | distinct strings get distinct indicator labels |
| Frames.DummyNamesMembers | project_pwc/features.py:30 | the indicator labels are exactly `prefix_value` for the encoded strings |
| Frames.Indicator | project_pwc/features.py:30 | an indicator is boolean and true exactly in the rows that hold its string |
| Frames.AddIndicators | project_pwc/features.py:30 | the indicator columns are appended after the existing labels, in the order of the values |
| Frames.AddIndicatorsKeeps | project_pwc/features.py:30 | appending indicators keeps every existing column |
| Frames.AddIndicatorsSets | project_pwc/features.py:30 | each value gets its own indicator column |
| Frames.OneHot | project_pwc/features.py:30 | `get_dummies` removes the encoded column and appends one indicator per distinct string, in sorted order |
| Frames.OneHotCells | project_pwc/features.py:30 | it keeps the other columns, and each string's indicator is true exactly in that string's rows (a NaN row is false in all) |
| Frames.DummyValues | project_pwc/features.py:30 | the encoded strings are distinct and exactly the strings of the column |
| Features.EducationOrdinal | project_pwc/features.py:34 | `edu_map` gives "Missing", "Bachelor's", "Master's", "PhD" their positions 0 to 3 and no other string an ordinal |
| Features.EducationCell | project_pwc/features.py:35 | `map(edu_map)` gives a known level its ordinal, and NaN for anything else |
| Features.ExperienceBin | project_pwc/features.py:39-46 | `pd.cut` puts a negative number in no bin |
| Features.ExperienceBinIntervals | project_pwc/features.py:39-46 | each bin is exactly its interval: [0,2], (2,7], (7,15], (15,inf) |
| Features.LabelOrdinal | project_pwc/features.py:49 | `exp_map` gives each of the four labels its position and nothing else an ordinal |
| Features.ExperienceOrdinalIsBinIndex | project_pwc/features.py:39-50 | the experience ordinal is the index of the bin, absent for a negative number |
| Features.ExperienceOrdinalRange | project_pwc/features.py:39-50 | every non-negative number has an ordinal, in 0..3 |
| Features.ExperienceOrdinalMonotone | project_pwc/features.py:39-50 | more years never give a lower ordinal |
| Features.ExperienceOrdinalEdges | project_pwc/features.py:39-50 | 0 and 2 give 0, 3 and 7 give 1, 8 and 15 give 2, 16 gives 3, -1 gives none |
| Features.ExperienceCellsCompose | project_pwc/features.py:41-50 | binning a cell and mapping its label gives the experience ordinal of the number `pd.cut` reads from it |
| Features.ExperienceOfFlag | project_pwc/features.py:39-50 | `pd.cut` casts a boolean to 0 or 1, so both truth values land in the first bin, ordinal 0 |
| Features.LogStep | project_pwc/features.py:23-27 | with the log asked for, fails exactly when there is no Salary column; otherwise `Salary_log` is the log of each salary, and the other columns are kept |
| Features.GenderStep | project_pwc/features.py:29-30 | one-hot encodes Gender only when that column is there; it refuses an indicator label that already exists |
| Features.EducationStep | project_pwc/features.py:33-35 | appends the education ordinal only when Education Level is there |
| Features.ExperienceStep | project_pwc/features.py:38-50 | fails exactly when Years of Experience is there and holds a string; otherwise appends the level and its ordinal, with a boolean binned as 0 or 1 |
| Features.RenameStep | project_pwc/features.py:72-74 | the rename loop succeeds exactly when every rename finds its target free, and is then the renames in order |
| Features.RenameStepFailurePersists | project_pwc/features.py:72-74 | once a rename is refused, the whole loop is |
| Features.DeriveFeatures | project_pwc/features.py:23-82 | the in-place edits of `main`, in order, return exactly `DerivedFeatures` |
| Features.Encode | project_pwc/features.py:23-50 | the first four edits return exactly `Encoded` |
| Features.DropIrrelevant | project_pwc/features.py:53-63 | the `cols_to_drop` loop is `DropColumns` of the list |
| Features.RenameFeatures | project_pwc/features.py:67-74 | the `rename_map` loop is `RenameStep` of the map's pairs, in insertion order |
| Features.CastFlags | project_pwc/features.py:80-82 | the bool-cast loop is `CastColumns` of the two flag labels |
| Features.RenameNameOfPairs | project_pwc/features.py:67-74 | `rename_map` sends `Years of Experience`, `gender_Female` and `gender_Male` to their snake-case labels and every other label to itself; `Education_Level_ordinal` keeps its name |
| Features.EncodedColumnsMembers | project_pwc/features.py:23-50 | each label after the first four steps is an input label other than Gender, `Salary_log`, an indicator, or an ordinal the steps write |
| Features.FeatureColumnsMembers | project_pwc/features.py:53-78 | each label of the result is the renamed form of a label that was not dropped, and never `gender_Missing` |
| Features.DerivedColumns | project_pwc/features.py:23-82 | the labels of a successful result are `FeatureColumns` of the input's labels and Gender strings |
| Features.FeatureColumnsExcluded | project_pwc/features.py:53-78 | none of `cols_to_drop`, `gender_Missing`, Gender, Years of Experience, `gender_Female` or `gender_Male` is left |
| Features.FeatureColumnsKeep | project_pwc/features.py:53-74 | every other input label survives, renamed by `rename_map` |
| Features.FeatureColumnsOrder | project_pwc/features.py:23-78 | the surviving input labels keep their relative order |
| Features.EncodedOrder | project_pwc/features.py:23-50 | the first four steps keep the order of the input labels other than Gender |
| Features.FeatureColumnsSalaryLog | project_pwc/features.py:23-27 | with no `Salary_log` in the input, the result has one exactly when the log is asked for |
| Features.FeatureColumnsEducation | project_pwc/features.py:33-71 | the education ordinal is in the result exactly when Education Level was in the input, under `Education_Level_ordinal`; no `education_level_ordinal` is made |
| Features.FeatureColumnsExperience | project_pwc/features.py:38-63 | the experience ordinal is there exactly when Years of Experience was |
| Features.FeatureColumnsGender | project_pwc/features.py:29-78 | every Gender string but "Missing" leaves an indicator in the result; with no `gender_` label in the input, the result has no other `gender_` label |
| Features.MissingIndicator | project_pwc/features.py:76-77 | `gender_Missing` is the indicator of "Missing" and of no other string |
| Features.GenderStepCells | project_pwc/features.py:29-30 | the one-hot step keeps the other columns, and gives each string its indicator |
| Features.EducationStepCells | project_pwc/features.py:33-35 | the education step writes `edu_map` of each level and keeps the other columns |
| Features.ExperienceStepCells | project_pwc/features.py:38-50 | the experience step writes the bin labels and their ordinals and keeps the other columns |
| Features.EncodedKeeps | project_pwc/features.py:23-50 | an input column the first four steps neither write nor encode is kept as it was |
| Features.EncodedSalaryLog | project_pwc/features.py:23-24 | after the first four steps, `Salary_log` is the log of each salary |
| Features.EncodedEducation | project_pwc/features.py:33-35 | after the first four steps, the education ordinal is `edu_map` of each level |
| Features.EncodedExperience | project_pwc/features.py:38-50 | after the first four steps, the experience ordinal is `exp_map` of each row's bin label |
| Features.EncodedIndicator | project_pwc/features.py:29-30 | after the first four steps, each Gender string has its indicator column |
| Features.FinishedKeeps | project_pwc/features.py:53-82 | the last four steps move a kept column to its renamed label with the same cells |
| Features.FinishedColumns | project_pwc/features.py:53-82 | the last four steps' labels are the drops, the renames and the `gender_Missing` drop of the input's labels |
| Features.DerivedKeeps | project_pwc/features.py:11-82 | an input column that `main` neither drops, writes nor encodes reaches the result unchanged, under its renamed label |
| Features.DerivedSalaryLog | project_pwc/features.py:23-24 | with the log asked for, the result's `Salary_log` is the log of each row's salary |
| Features.DerivedEducation | project_pwc/features.py:33-35 | the result's education ordinal is 0 to 3 for each row with a known level, NaN otherwise |
| Features.DerivedExperience | project_pwc/features.py:38-50 | the result's experience ordinal is each row's bin index, with a boolean read as 0 or 1, and NaN for NaN or a negative number |
| Features.DerivedIndicator | project_pwc/features.py:29-82 | each Gender string but "Missing" has a boolean indicator in the result (lower-cased for Female and Male), true exactly in that string's rows |
| Features.DerivedGenderLabels | project_pwc/features.py:29-78 | with no `gender_` input label, every `gender_` label of the result is the indicator of a Gender string other than "Missing" |
| Features.IndicatorsOneHot | project_pwc/features.py:30 | indicators of distinct strings are never true in the same row, and a NaN or "Missing" row is false in all |
| Features.DerivedOneHot | project_pwc/features.py:29-82 | in each result row at most one gender indicator is true, and none is true for NaN or "Missing" |
| Features.DerivedOwnIndicator | project_pwc/features.py:29-82 | a row whose Gender is a string other than "Missing" has its own indicator true |
| Features.EncodedSucceeds | project_pwc/features.py:23-50 | with no `gender_` input label, the first four steps fail exactly on a missing Salary under the log (KeyError) or a string in Years of Experience (TypeError); numbers, booleans and NaN are binned |
| Features.FeatureRenamesFresh | project_pwc/features.py:67-74 | the renames all find their target free unless Gender holds both "Female" and "female", or both "Male" and "male" |
| Features.DerivedSucceeds | project_pwc/features.py:11-82 | on a text Gender column with no `gender_` or `years_experience` input label, `main` succeeds exactly when the log finds Salary, Years of Experience holds no string, and no two Gender spellings collide under the renames |
| Pipeline.ToFrame | project_pwc/features.py:20 | the cleaned records read back as a well-formed table with the merged labels and each record's cells |
| Pipeline.ToFrameShape | project_pwc/features.py:20 | that table has no `gender_` label and no `years_experience` |
| Pipeline.CompleteFrame | project_pwc/features.py:20 | on complete records, Years of Experience holds only numbers and Gender holds exactly the records' genders |
| Pipeline.CleanedThenDerived | project_pwc/features.py:11-82 | on complete records the feature stage succeeds exactly when no two records spell "Female" (or "Male") in different cases: Salary is there and Years of Experience is numeric |
| Pipeline.CleanedRowKept | project_pwc/features.py:53-74 | each feature row keeps its record's Salary and, as `years_experience`, its years of experience |
| Pipeline.CleanedRowOrdinals | project_pwc/features.py:33-50 | the two ordinals of each feature row encode the record's education level and years of experience |
| Pipeline.CleanedRowGender | project_pwc/features.py:29-82 | a feature row's `gender_` flag is true exactly for the record's own Gender, unless that is "Missing" |

## Left out

- CSV loading and writing, the typer CLI, loguru logging and the tqdm loop are I/O. Reading the cleaned file back is `Pipeline.ToFrame`, with the records' fields as its cells.
- Pipeline.ToFrame: the write and read-back are taken as lossless. `read_csv` would turn a text cell spelled as one of its default NA markers ("NA", "None", "null", the empty string) into NaN, where `ToFrame` keeps it as text. Cleaned records come from a first `read_csv` that already turned such cells into NaN and filled them.
- `np.log` is floating point. It is a parameter `log`, applied cell by cell, so `Salary ≤ 0` and NaN results are not modelled.
- Floating point in general: numbers are exact reals, with no rounding, overflow, NaN arithmetic or infinity. The `int64` and `float64` dtypes, and the int/float distinction after the cast, are not kept.
- Dataset.MergeData: requires unique ids in the salary and description tables. pandas' row fan-out on duplicate ids is not modelled.
- Features.DeriveFeatures: requires a Gender column made of strings and NaN. `get_dummies` on numbers or booleans is not modelled.
- Features.GenderStep: a clash between an indicator label and an existing label becomes a `DuplicateLabel` error. When the duplicated label is `gender_female` or `gender_male`, pandas fails too: at project_pwc/features.py:81, `df[col]` is then a DataFrame, and its `.dtype` raises `AttributeError`. For any other label, such as `gender_Other`, pandas would go on with both columns under one label, which the model does not follow.
- Features.RenameStep: a rename onto a label already present becomes a `DuplicateLabel` error. For `gender_female` and `gender_male`, pandas also fails at project_pwc/features.py:81, as above. A rename onto an existing `years_experience` would, in pandas, go on with duplicate labels.
- Features.CutValue: a column mixing booleans with numbers (object dtype) is binned like a numeric one, True as 1 and False as 0; pandas' own coercion of such columns is not modelled further.
- pandas dtypes other than "all cells boolean" are not modelled, so the `dtype != bool` test of the bool cast is read as "some cell is not a boolean".
- The `pd.cut` result is a categorical column; the model keeps its labels as strings.
- Pipeline.CleanedThenDerived, Pipeline.CleanedRowKept, Pipeline.CleanedRowOrdinals, Pipeline.CleanedRowGender: these take complete records (`AllComplete`) rather than a call of `Cleaned`. `Dataset.CleanedIsComplete` proves that cleaning returns such records.
- Training, the HTTP endpoint and the interactive form are not part of this model. They wrap an external regression library.
