# Thyroid feature engineer, modelled in Dafny

This project models `ThyroidFeatureEngineer` from `source/data_featureEngg.py`.
The class owns one pandas table of thyroid lab records and cleans it with six
fixed passes, run in order by `clean()`:

1. drop the six `*_measured` flag columns;
2. fill missing `sex` with the column's mode;
3. fill missing `TBG` from an inclusive (age band, sex) table;
4. map the diagnostic code `target` to one of seven classes in a new `class`
   column, and replace `patient_id` by a 1-based `Patient_ID`;
5. drop the rows that miss a lab value and are labelled "No Condition";
6. fill every remaining missing cell with the column's median (float64/int64
   columns) or mode (all other columns);

then reset the index.

The files are:

- `values.dfy`: cells (a number, a string, or missing) and the order pandas
  uses to break ties between equally frequent values.
- `stats.dfy`: `mode()[0]` and `median()` over the non-missing cells.
- `frames.dfy`: the table. It holds ordered, distinct column names. Each
  column has a dtype (numeric for float64/int64, other for everything else)
  and one cell per row, and each row has an index label. It also defines the
  column and row operations the passes use.
- `rules.dfy`: the constant tables and the row-level rules: the TBG band
  lookup, the code-to-class mapping, and the row-drop condition.
- `passes.dfy`: each pass as a function from the table before it to the
  table after it. A pass that can raise also returns the exception. This
  file also holds the `clean()` pipeline and the properties of its result.
- `engineer.dfy`: the class itself. It has a table field and one method per
  pass, which updates that field in place. `fill_remaining_nans` is written
  as the source's loop over the columns.

Exceptions are values (`Values.Error`):

- `MissingColumn`: a `KeyError` for a column that a row lacks.
- `IncomparableAge`: a `TypeError` from comparing a string age with a band
  bound.
- `NoMode`: the `KeyError` of `mode()[0]` on a column without any value.

A failing method leaves the table as the source leaves it when the exception
propagates:

- unchanged for `fill_missing_sex` and `replace_tbg`;
- already filled up to the failing column for `fill_remaining_nans`.

The table keeps each column's dtype across the row drop, as pandas does. So a
non-numeric column that is missing in every row that survives the drop makes
the last pass raise.

Tie-breaking in `mode()`: pandas returns the tied values sorted. The model
takes the smallest under one fixed order:

- numbers before strings;
- numbers by value;
- strings by code point.

## Model

| member | source | states |
|---|---|---|
| Values.LessIsStrictTotalOrder | source/data_featureEngg.py:38 | the tie-breaking order of `mode()` is irreflexive, transitive and total, so "the smallest tied value" is well defined |
| Stats.Mode | source/data_featureEngg.py:38 | `mode()[0]` is missing exactly when the column has no value. Otherwise it is a value of the column that occurs at least as often as any other and is the smallest among those that occur equally often |
| Stats.ModeUnique | source/data_featureEngg.py:75 | a column has at most one such mode, so the fill value is determined by the column |
| Stats.Median | source/data_featureEngg.py:73 | `median()` is missing exactly when the column holds no number |
| Stats.MedianSplits | source/data_featureEngg.py:73 | the median is missing exactly when the column has no number. Otherwise at least half of the numbers are at most the median and at least half are at least it |
| Frames.Infer | source/data_featureEngg.py:51 | the dtype pandas infers for the new TBG column: float64 when every cell is a number or missing (so an all-missing column is float64), object when some cell is a string |
| Frames.DropColumns | source/data_featureEngg.py:33 | `drop(columns=..., errors='ignore')` removes exactly the named columns that are present, ignores absent names, and keeps every other column and every row; the remaining columns are `Frames.Without`, which keeps their original order (Frames.WithoutInOrder) |
| Frames.WithoutAppend | source/data_featureEngg.py:55-58 | a column appended before a drop stays last after it unless it is dropped, and the others keep their order |
| Frames.WithoutInOrder | source/data_featureEngg.py:33 | the columns left by a drop are the original columns at the unnamed positions, in their original order (a filter of the column list) |
| Frames.SetColumn | source/data_featureEngg.py:51 | assigning a column replaces it where it stands or appends it at the end, and changes no other column |
| Frames.KeepRows | source/data_featureEngg.py:68 | keeping rows by a mask keeps the columns, and filters every column and the index by the same mask |
| Frames.FilterMember | source/data_featureEngg.py:68 | among distinct elements, an element survives the filter exactly when its position is marked |
| Frames.FillNa | source/data_featureEngg.py:38 | `fillna(v)` sets every missing cell to v and keeps every other cell |
| Frames.Filter | source/data_featureEngg.py:68 | the kept elements are those at the marked positions, in increasing order |
| Frames.ResetIndex | source/data_featureEngg.py:84 | `reset_index(drop=True)` relabels the rows 0..n-1 and changes no cell |
| Rules.NotFlags | source/data_featureEngg.py:13 | none of the columns the other passes use is one of the six flag columns |
| Rules.Matches | source/data_featureEngg.py:46 | a band matches only an age within its bounds, and never a missing or numeric sex (NaN and numbers equal no string) |
| Rules.MatchesBounds | source/data_featureEngg.py:46 | both bounds are inclusive, an age just below or above them does not match, and the sex must be the band's own |
| Rules.Lookup | source/data_featureEngg.py:45-47 | the loop over the table returns the value of a band whose bounds contain the age (inclusive) and whose sex equals the row's, and returns nothing only when no band matches |
| Rules.ReplacementValuesDisjoint | source/data_featureEngg.py:7-11 | no two bands of the same sex share an age |
| Rules.LookupAnyMatch | source/data_featureEngg.py:45-47 | over disjoint bands, whichever band matches is the one whose value the loop returns |
| Rules.LookupOrderFree | source/data_featureEngg.py:45 | over disjoint bands, the result does not depend on the order in which the loop tries them |
| Rules.TbgDefaults | source/data_featureEngg.py:7-11 | the decision table: ages 1-9 give 3.75 and ages 10-19 give 3.35 for both sexes; ages 20-100 give 1.85 for M and 2.2 for F; any other age, or a sex other than M or F, gives nothing |
| Rules.ReplaceRow | source/data_featureEngg.py:41-48 | `replace(row)` returns a present TBG unchanged. A filled TBG comes from a band matching the row's numeric age and sex. For a missing TBG: no `age` column raises KeyError on age, then no `sex` column raises KeyError on sex, a missing age keeps TBG missing, and a string age raises TypeError |
| Rules.ReplaceRowFromBand | source/data_featureEngg.py:42-48 | for a missing TBG and a numeric age, the row gets value v exactly when a matching band has value v, and stays missing exactly when no band matches |
| Rules.MappingOntoClasses | source/data_featureEngg.py:15-26 | the codes map onto exactly the seven class names |
| Rules.MapCode | source/data_featureEngg.py:55 | `Series.map(dict)` on one cell gives a class name exactly when the cell is a known code, and a missing cell otherwise |
| Rules.MapCodeExamples | source/data_featureEngg.py:15-26 | 'A' gives Hyperthyroid, 'GKJ' Hypothyroid, a compound code with a bar Binding Protein, and '-' No Condition. An unknown code, a number and a missing cell give a missing cell |
| Passes.DropMeasuredFlags | source/data_featureEngg.py:32-33 | the present flag columns are removed. Every other column is kept unchanged and in its order, and every row is kept |
| Passes.FillWithMode | source/data_featureEngg.py:38 | only missing cells change, and each gets the column's mode. A column with no value raises and leaves the table unchanged |
| Passes.FillMissingSex | source/data_featureEngg.py:36-38 | there is no effect without a `sex` column. Otherwise missing sex cells get the mode and nothing else changes. It raises exactly when `sex` has no value |
| Passes.ReplaceRows | source/data_featureEngg.py:51 | `apply(replace, axis=1)` gives each row's `replace` result, or the exception of the first row that raises |
| Passes.ReplaceTbg | source/data_featureEngg.py:50-51 | there is no effect without a `TBG` column. Otherwise every row's TBG becomes its `replace` result, with an inferred dtype, and no other column changes. An exception leaves the table unchanged |
| Passes.ReplaceTbgEffect | source/data_featureEngg.py:41-48 | a present TBG is never changed. A missing TBG with a missing age stays missing. A missing TBG with a numeric age becomes the matching band's value, or stays missing |
| Passes.RowRaisesExactly | source/data_featureEngg.py:42-46 | `replace` raises on a row exactly when its TBG is missing and the table lacks `age` or `sex`, or its age is a string; the exception is the KeyError on age, else on sex, else the TypeError |
| Passes.ReplaceTbgKeepsNumeric | source/data_featureEngg.py:40-51 | when the pass raises nothing, a numeric TBG column stays numeric, since every new cell is a present number, a band value or missing; so the last pass fills TBG with its median |
| Passes.ReplaceTbgRaises | source/data_featureEngg.py:40-51 | the pass raises exactly when some row with a missing TBG lacks an age or sex column or has a string age, and then with the exception of the first such row |
| Passes.PatientIds | source/data_featureEngg.py:57 | `df.index + 1`, cell by cell |
| Passes.MapColumn | source/data_featureEngg.py:55 | `Series.map` gives one cell per row, each the mapping of the row's cell |
| Passes.WithMapped | source/data_featureEngg.py:54-55 | with a code column, the class column is the mapped codes with object dtype; a new class column goes at the end of the column list, an existing one stays where it is; no other column changes |
| Passes.WithPatientId | source/data_featureEngg.py:56-58 | `Patient_ID` is added as index + 1 (at the end when new), `target` and `patient_id` are dropped, the remaining columns keep their order, and nothing else changes |
| Passes.WithPatientIdOrder | source/data_featureEngg.py:57-58 | the columns after the step are the input's columns in order less `target` and `patient_id`, then `Patient_ID` when it is new |
| Passes.MapTarget | source/data_featureEngg.py:53-58 | `class` becomes the mapped codes when `target` exists. When `patient_id` exists, `Patient_ID` is added and `target` and `patient_id` are gone. Without `patient_id`, `target` is kept and an existing `Patient_ID` is unchanged. No other column changes; the column order is MapTargetOrder |
| Passes.MapTargetOrder | source/data_featureEngg.py:53-58 | the result's columns are the input's columns in their order (less `target` and `patient_id` when `patient_id` exists), then a new `class` column, then a new `Patient_ID` column |
| Passes.MapTargetColumn | source/data_featureEngg.py:53-58 | the same, at the source's column names and code mapping: `class` is the mapped `target` with object dtype; with `patient_id`, `Patient_ID` is index + 1 and `target` and `patient_id` are gone; without it, `target` and an existing `Patient_ID` are unchanged; no other column changes; the column order is MapTargetColumnOrder |
| Passes.MapTargetColumnOrder | source/data_featureEngg.py:53-58 | the pass keeps the other columns in their order, removes `target` and `patient_id` when `patient_id` exists, and appends a new `class`, then a new `Patient_ID` |
| Passes.PatientIdIsPosition | source/data_featureEngg.py:57 | under a fresh RangeIndex, `Patient_ID` of row i is i + 1 |
| Passes.MappedClasses | source/data_featureEngg.py:55 | every non-missing cell of the mapped column is one of the seven class names |
| Passes.KeepMask | source/data_featureEngg.py:68 | `drop(labels)` keeps a row exactly when its label is not among the labels of the selected rows |
| Passes.ConditionByColumn | source/data_featureEngg.py:63-67 | the condition selects a row exactly when one of TSH, T3, TT4, T4U, FTI is missing and class equals "No Condition" |
| Passes.DroppedExactly | source/data_featureEngg.py:68 | with distinct labels, a row's label is among the dropped labels exactly when the condition selects that row |
| Passes.DropNanIfNoCondition | source/data_featureEngg.py:60-68 | there is no effect unless all of TSH, T3, TT4, T4U, FTI and class are present. Otherwise the rows whose label is not among the selected rows' labels are kept, in order, with their dtypes |
| Passes.DropNanKeepsExactly | source/data_featureEngg.py:63-68 | with distinct labels, a row's label survives the pass exactly when it is not the case that a lab value is missing and class is "No Condition". Rows with a missing class are kept |
| Passes.SharedLabelDropped | source/data_featureEngg.py:68 | the drop is by label: a row that shares its label with a selected row is removed as well |
| Passes.FillCells | source/data_featureEngg.py:72-75 | a numeric column gets its missing cells set to the median, or stays as it is when it has no number. Any other column gets its missing cells set to the mode, and raises exactly when it has no value |
| Passes.FillColumn | source/data_featureEngg.py:71-75 | one turn of the loop changes only its own column |
| Passes.FillColumns | source/data_featureEngg.py:71-75 | the loop keeps the column list, the index, and every column it does not visit |
| Passes.FillColumnsRaises | source/data_featureEngg.py:71-75 | the loop raises exactly when one of the columns, as it was before the loop, cannot be filled |
| Passes.FillColumnsValues | source/data_featureEngg.py:71-75 | a loop that raises nothing fills every column from its own original cells, as if each were filled alone |
| Passes.FillColumnsFirstError | source/data_featureEngg.py:71-75 | a loop that raises does so at the first column, in column order, that cannot be filled |
| Passes.FillRemainingNans | source/data_featureEngg.py:70-75 | the pass keeps the columns, their order and the rows |
| Passes.FillColumnsPartial | source/data_featureEngg.py:71-75 | when column k is the first that cannot be filled, the loop raises `NoMode` of it, the columns before it are filled from their own cells and the others are as they were |
| Passes.FillRemainingNansRaises | source/data_featureEngg.py:70-75 | when the pass raises, it is at the first column, in column order, that cannot be filled, and the columns before it stay filled (each is filled in place before the exception) while the others are as they were |
| Passes.FillRemainingNansFirst | source/data_featureEngg.py:70-75 | a table with a column that cannot be filled makes the pass raise `NoMode` of the first such column |
| Passes.FillCellsComplete | source/data_featureEngg.py:72-75 | a filled column has no missing cell, unless it is numeric and has no number, in which case it is unchanged |
| Passes.ModeFillOnlyIn | source/data_featureEngg.py:75 | filling with the mode leaves no missing cell and introduces no new value |
| Passes.CleanSteps | source/data_featureEngg.py:77-83 | the passes run in order and never add rows; where they stop and with which exception is stated by CleanRaises, CleanSexError, CleanTbgError and CleanReachesFill |
| Passes.CleanRaises | source/data_featureEngg.py:77-85 | `clean()` raises exactly when the `sex` column has no value, or some row makes `replace` raise on the sex-filled table, or some column of the table before the last pass cannot be filled; its exception is the one its passes stop at |
| Passes.CleanSexError | source/data_featureEngg.py:77-79 | a `sex` column without any value stops the passes at `fill_missing_sex` with `NoMode("sex")`, leaving the table with its flags dropped |
| Passes.CleanTbgError | source/data_featureEngg.py:77-80 | otherwise a raising row stops the passes at `replace_tbg`, with the exception of the first raising row and the table `replace_tbg` started from |
| Passes.CleanReachesFill | source/data_featureEngg.py:77-83 | when neither `fill_missing_sex` nor `replace_tbg` raises, the passes end exactly where `fill_remaining_nans` ends on the table the row drop leaves |
| Passes.Clean | source/data_featureEngg.py:77-85 | the result has at most as many rows as the input, labelled 0..n-1 |
| Passes.CleanTrace | source/data_featureEngg.py:77-85 | a successful `clean()` passes through each pass without an exception |
| Passes.CleanColumns | source/data_featureEngg.py:77-85 | no flag column remains. `class` is present exactly when the input had `class` or `target`. With `patient_id`: `Patient_ID` is present and neither `target` nor `patient_id` is. Without it: `target` and `Patient_ID` are each present exactly when the input had them. Every other input column survives, and no column appears besides `class` and `Patient_ID` |
| Passes.CleanClassNames | source/data_featureEngg.py:77-85 | given a `target` column, the cleaned `class` column is present, has no missing cell, and holds only the seven class names |
| Passes.CleanNoMissing | source/data_featureEngg.py:77-85 | no cleaned column has a missing cell, except a float64/int64 column that is missing in every row |
| Engineer.ThyroidFeatureEngineer.constructor | source/data_featureEngg.py:5-6 | the engineer starts from the caller's table, as its own value |
| Engineer.ThyroidFeatureEngineer.DropMeasuredFlags | source/data_featureEngg.py:32-33 | the table field becomes the flag-drop result |
| Engineer.ThyroidFeatureEngineer.FillMissingSex | source/data_featureEngg.py:36-38 | the field and the exception are those of the sex-fill pass |
| Engineer.ThyroidFeatureEngineer.ReplaceTbg | source/data_featureEngg.py:40-51 | the field and the exception are those of the TBG pass |
| Engineer.ThyroidFeatureEngineer.MapTargetColumn | source/data_featureEngg.py:53-58 | the field becomes the code-mapping result |
| Engineer.ThyroidFeatureEngineer.DropNanIfNoCondition | source/data_featureEngg.py:60-68 | the field becomes the row-drop result |
| Engineer.ThyroidFeatureEngineer.FillRemainingNans | source/data_featureEngg.py:70-75 | the loop over the columns, filling each in place, ends in the state and exception of the fill pass. When it raises, the earlier columns stay filled (FillRemainingNansRaises) |
| Engineer.ThyroidFeatureEngineer.Clean | source/data_featureEngg.py:77-85 | the method returns what `clean()` makes of the initial table, and leaves the field at that result. When it raises, the field is left where the passes before the exception put it |

## Left out

- `load_data` and `clean_and_save` (source/data_featureEngg.py:29-30, 87-91) read and write CSV files. This is file I/O; the model starts from a table that is given.
- main.py, source/script.py, source/DataPreprocessor.py and source/data_visualization.py are not part of this model. They are cloud deployment, model training, resampling and plotting around foreign libraries.
- Floating point: numbers are exact reals. The median of an even count is the exact mean of the two middle numbers.
- `fillna(..., inplace=True)` on a column selected from the table (lines 38, 73, 75) is modelled as filling the table's column in place. Under pandas copy-on-write it would not write back.
- dtypes: only float64/int64 (numeric) versus every other dtype is modelled. Other numeric dtypes (int32, float32) would take the mode branch at line 72 in the source; the model has no such dtype.
- Cells are numbers or strings. Booleans, dates and other Python objects are not modelled.
- Values.Less: when a column mixes numbers and strings, pandas may fail to sort the tied modes. The model then still takes the smallest under its order, numbers before strings.
- Passes.ReplaceTbg: on a table with no rows that lacks an `age` or a `sex` column, pandas' `apply` returns a copy of the table instead of a Series, and assigning it to `TBG` raises for a table of more than one column. The model sets an empty TBG column and raises nothing. With both columns present, pandas returns an empty Series, as the model does.
- Missing cells are NaN, as `read_csv` gives. A Python `None` age would raise TypeError at line 46, where the model, like NaN, leaves TBG missing.
- Row-wise `apply` upcasts the cells of a row to a common dtype. The model reads each cell as stored; a numeric age stays a number.
- Passes.DropNanKeepsExactly: requires distinct index labels, as `read_csv` gives. For duplicated labels, `Passes.SharedLabelDropped` states the extra rows the label-based drop removes.
- The exception messages are not modelled, only which exception and where.
- Frames.Frame: column names are distinct. pandas allows duplicate names, and then `df['sex']` is a table rather than a column; `read_csv` renames duplicates, so the cleaning passes never see them.
