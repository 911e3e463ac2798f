# Table helpers of q3_data_utils.py, modelled in Dafny

`q3_data_utils.py` is a small library of data-frame helpers for a clinical
trial data set. This project models its six helpers that carry their own
logic. The model works over an in-memory table: a list of column names and a
sequence of rows, each row mapping every column to a cell. A cell is missing
(`Null`, pandas' NaN), a number (`Num`, a real) or a text (`Str`). Exceptions
raised by the helpers become `Failure` values of a `Result`.

- `Tables.dfy`: the data model.
  - Cells, rows and tables.
  - The well-formedness invariant: distinct column names, and every row has exactly those columns.
  - The errors.
  - pandas' cell-by-cell comparisons. A missing cell compares false. Numbers compare with numbers and texts with texts. Ordering a number against a text is a `TypeMismatch`.
- `Cleaning.dfy`: `clean_data` and `detect_missing`, as pure functions.
  - `clean_data`: duplicate removal keeping first occurrences, then sentinel replacement.
  - `detect_missing`: the missing cells per column.
- `Imputation.dfy`: `fill_missing`, a strategy dispatcher over a copy of the table.
  - mean and median: a statistic of the present values fills every missing cell.
  - ffill: forward fill.
  - Any other strategy: an error.
- `Filtering.dfy`: `filter_data`.
  - A method loops over the filter specifications. It narrows the table one condition at a time and raises the errors in the order the Python code meets them.
  - It is proved against a reference definition, `Select`: the input rows that pass every condition, in their order.
- `Binning.dfy`: `create_bins`.
  - The method copies the table and writes one column of interval labels, computed as `pd.cut(..., include_lowest=True)` computes them.
  - The interval of each value is found by binary search over the edges.
- `Retyping.dfy`: `transform_types`.
  - A class `Frame` whose columns the method converts in place, entry by entry of the type map.
  - The conversion itself is a parameter.

`clean_data` is not idempotent when duplicates are removed, because duplicates
are dropped before the sentinel is replaced. Rows `(-999, 0)` and `(NaN, 0)`
are distinct on the first call and equal after it, so a second call drops one
of them. The model follows the code:
- `Cleaning.CleanNotIdempotent` exhibits the counterexample.
- `Cleaning.CleanIdempotentIff` shows that a second call changes nothing exactly when the first call's output has no repeated rows.
- Without duplicate removal, a second call always changes nothing (`Cleaning.CleanTwice`).

## Model

| member | source | states |
|---|---|---|
| Tables.Column | q3_data_utils.py:89-92 | `df[column]` of a well-formed table has one cell per row, the row's cell in that column |
| Tables.WithColumn | q3_data_utils.py:90-92 | `out[column] = cells` sets the column to exactly `cells`, keeps the row count, and leaves every other column of every row as it was |
| Tables.WithColumnWellFormed | q3_data_utils.py:90-92 | overwriting an existing column keeps the table well formed |
| Tables.TextLess | q3_data_utils.py:111-117 | text order: a proper prefix comes first, and no text comes before itself |
| Tables.Equal | q3_data_utils.py:110 | pandas' `==` on cells: true exactly for two equal present cells; a missing cell equals nothing, itself included |
| Tables.Less | q3_data_utils.py:111-114 | `<` fails with `TypeMismatch` exactly when a number meets a text; it is true only for two distinct present cells |
| Tables.LessEq | q3_data_utils.py:117 | `<=` fails exactly where `<` fails, with `TypeMismatch`; otherwise it is `<` or `==` |
| Tables.TextLessStrict | q3_data_utils.py:111-117 | the text ordering the comparisons use is irreflexive and transitive |
| Tables.LessStrictOrder | q3_data_utils.py:111-117 | `<` on cells is irreflexive, asymmetric and transitive |
| Cleaning.FirstIndex | q3_data_utils.py:46-47 | the position of the first occurrence of a row: it holds the row and no earlier position does |
| Cleaning.Dedup | q3_data_utils.py:46-47 | `drop_duplicates` gives rows without repeats, exactly the rows of the input, and no more rows than it |
| Cleaning.DedupKeepsOrder | q3_data_utils.py:46-47 | the kept rows come in the order of their first occurrences in the input; with `Dedup`'s contract this fixes the result exactly |
| Cleaning.DedupOfDistinct | q3_data_utils.py:46-47 | rows without repeats come back unchanged |
| Cleaning.DedupIdempotent | q3_data_utils.py:46-47 | removing duplicates twice is removing them once |
| Cleaning.ReplaceSentinel | q3_data_utils.py:48 | `replace(sentinel, NaN)` keeps each row's columns; a cell equal to the sentinel becomes missing, every other cell is kept, so a cell already missing stays missing |
| Cleaning.ReplaceAbsentSentinel | q3_data_utils.py:48 | replacing a sentinel that does not occur changes nothing |
| Cleaning.CleanData | q3_data_utils.py:30-49 | the result is well formed, has the same columns and no more rows, and no cell equals the sentinel |
| Cleaning.CleanKeepsOtherCells | q3_data_utils.py:48 | without duplicate removal, every cell is kept unless it equals the sentinel, which becomes missing |
| Cleaning.CleanTwice | q3_data_utils.py:46-49 | a second call only drops the duplicates the replacement created; without duplicate removal it changes nothing |
| Cleaning.CleanIdempotentIff | q3_data_utils.py:46-49 | a second call leaves the result unchanged if and only if the result has no repeated rows |
| Cleaning.CleanNotIdempotent | q3_data_utils.py:46-49 | rows `(-999, 0)` and `(NaN, 0)` give 2 rows on the first call and 1 row on the second |
| Cleaning.CleanExample | test_q3.py:43-48 | `{x: [1, 1, -999], y: [0, 0, 0]}` cleaned with sentinel -999 has rows `(1, 0)` and `(NaN, 0)` |
| Cleaning.NullCount | q3_data_utils.py:68 | the count is the number of missing cells (their multiplicity in the column); it is at most the length, and zero exactly when no cell is missing |
| Cleaning.MissingIn | q3_data_utils.py:68 | a column's count is the number of its missing cells; it is at most the row count, and zero exactly when no row has that cell missing |
| Cleaning.DetectMissing | q3_data_utils.py:53-68 | one count per column, in column order; each is exactly the number of missing cells of that column, at most the row count, and zero exactly when the column has none |
| Imputation.ParseStrategy | q3_data_utils.py:88-94 | a strategy is recognised exactly when it is "mean", "median" or "ffill"; "mean" selects the mean, "median" the median and "ffill" forward fill |
| Imputation.ForwardFilled | q3_data_utils.py:92 | forward fill keeps the column's length |
| Imputation.NearestIsClosest | q3_data_utils.py:92 | the value carried to position i is missing exactly when all of positions 0..i are; otherwise it is the cell at the last present position at or before i |
| Imputation.ForwardFillMeaning | q3_data_utils.py:92 | present cells are kept; a missing cell takes the nearest preceding present value; leading missing cells stay missing |
| Imputation.ForwardFillIdempotent | q3_data_utils.py:92 | forward-filling twice is forward-filling once |
| Imputation.ForwardFillLeavesNoMissing | test_q3.py:65-66 | a column whose first cell is present has no missing cell after forward fill |
| Imputation.ForwardFillExample | test_q3.py:65-66 | `[1, NaN, 3]` forward-fills to `[1, 1, 3]` |
| Imputation.FilledWith | q3_data_utils.py:90 | `fillna(v)` keeps the column's length |
| Imputation.FilledWithMeaning | q3_data_utils.py:90 | filling with a present value puts it in every missing cell, leaves no missing cell and keeps every present cell |
| Imputation.NumericValues | q3_data_utils.py:89 | the column converts to numbers exactly when it holds no text, else `TypeMismatch`; the numbers are the present values, as many as there are present cells |
| Imputation.NumericValuesCounts | q3_data_utils.py:89 | each number occurs among the converted values exactly as often as it occurs in the column |
| Imputation.Average | q3_data_utils.py:89 | the mean lies between the smallest and the largest value |
| Imputation.SumBounds | q3_data_utils.py:89 | the sum of n values within [lo, hi] lies within [n·lo, n·hi] |
| Imputation.SumOfPermutation | q3_data_utils.py:89 | the sum does not depend on the order of the values |
| Imputation.AverageOfPermutation | q3_data_utils.py:89 | the mean does not depend on the order of the values |
| Imputation.AverageWithin | q3_data_utils.py:89 | the mean lies within any bounds of the values |
| Imputation.AverageExample | test_q3.py:62-64 | the mean of 1 and 3 is 2 |
| Imputation.Insert | q3_data_utils.py:89 | inserting into a sorted list gives a sorted permutation of the list plus the value |
| Imputation.Sorted | q3_data_utils.py:89 | sorting gives a sorted permutation of the values |
| Imputation.SortedUnique | q3_data_utils.py:89 | two sorted lists with the same values are equal, so the sorted order the median reads is unique |
| Imputation.MiddleValue | q3_data_utils.py:89 | the median is the mean of two of the values, and for an odd count it is one of the values |
| Imputation.MiddleValueOfPermutation | q3_data_utils.py:89 | the median does not depend on the order of the values |
| Imputation.MiddleValueWithin | q3_data_utils.py:89 | the median lies within any bounds of the values |
| Imputation.Statistic | q3_data_utils.py:88-90 | the fill value is missing (NaN) exactly when the column has no number; otherwise a number between the smallest and the largest value |
| Imputation.StatisticIs | q3_data_utils.py:89 | with numbers present, "mean" fills with their mean and "median" with their median |
| Imputation.StatisticOfPermutation | q3_data_utils.py:89 | the fill value does not depend on the order of the numbers |
| Imputation.Imputed | q3_data_utils.py:88-92 | the new column: mean and median fail with `TypeMismatch` exactly when the column holds a text; ffill never fails; one cell per row, and every present cell is kept |
| Imputation.ImputedByStatistic | q3_data_utils.py:89-90 | mean and median on a column without text fill the column with the statistic of its numbers |
| Imputation.StatisticFillsMissing | q3_data_utils.py:88-90 | for the present numbers of the column in any order, mean and median succeed, every missing cell gets their mean or median (NaN when there is none), and every present cell is kept |
| Imputation.ForwardFillColumn | q3_data_utils.py:91-92 | the loop sets the column to the forward fill of its cells and changes nothing else |
| Imputation.FillColumn | q3_data_utils.py:89-90 | the loop fills the column's missing cells with the statistic and changes nothing else |
| Imputation.FillMissing | q3_data_utils.py:72-95 | unknown strategy: `UnknownStrategy`; missing column: `ColumnNotFound`; text in the column for mean/median: `TypeMismatch`; otherwise a copy whose column holds the imputed cells, all other columns unchanged, still well formed |
| Imputation.FillLeavesNoMissing | test_q3.py:62-66 | when the column has a present value (the first one, for ffill), the filled column has no missing cell |
| Imputation.MeanFillExample | test_q3.py:62-64 | the mean fill of `[1, NaN, 3]` is `[1, 2, 3]` |
| Filtering.ParseOperator | q3_data_utils.py:109-121 | an operator is known exactly when it is one of the five names, and each name selects its own operator |
| Filtering.OperatorName | q3_data_utils.py:106 | the operator is read from `condition`, and from `operator` only when `condition` is absent |
| Filtering.Parse | q3_data_utils.py:105-121 | a missing `column` key and a missing `value` key are `MissingKey` errors, in that order; then an unknown operator fails; for a known operator, an in_range value that is not two bounds is `BadFilterValue`, then a column not in the table is `ColumnNotFound`, and otherwise the specification is read exactly when its value has the operator's shape; a parsed condition names a column of the table, and its test is the one its operator names: equals, greater_than and less_than compare with the value, in_range with the two bounds, in_list with the list |
| Filtering.Holds | q3_data_utils.py:109-119 | a row's comparison fails only with `TypeMismatch`, never for equals or in_list; a missing cell passes nothing but an in_list whose list holds a missing value |
| Filtering.NumericSemantics | q3_data_utils.py:109-119 | on numbers, equals is `==`, greater_than `>`, less_than `<`, in_range `lo <= v <= hi` with both ends included, and in_list is membership |
| Filtering.TextSemantics | q3_data_utils.py:109-117 | on texts, equals is equality, greater_than and less_than are the text order, and in_range includes both bounds |
| Filtering.TextRange | q3_data_utils.py:115-117 | in_range on texts: the value is between the bounds in text order, both bounds included |
| Filtering.MixedOrderingFails | q3_data_utils.py:110-117 | ordering a number against a text is a `TypeMismatch` in either direction, while equals just answers false |
| Filtering.Narrow | q3_data_utils.py:109-119 | narrowing fails exactly when some row's comparison is a type error; it keeps only input rows and never more of them |
| Filtering.Step | q3_data_utils.py:104-121 | one pass of the loop keeps the table well formed, keeps the columns and does not add rows |
| Filtering.ApplyFilters | q3_data_utils.py:103-122 | the filtered table is well formed, has the same columns and no more rows |
| Filtering.FilterData | q3_data_utils.py:99-122 | the loop computes `ApplyFilters`; an empty list returns the input; on success the rows are exactly `Select` of the input rows, and any unknown operator makes the call fail |
| Filtering.Select | q3_data_utils.py:103-122 | the reference selection has no more rows than its input |
| Filtering.SelectMeaning | q3_data_utils.py:103-122 | a row is selected if and only if it is an input row that passes every condition |
| Filtering.ParseAll | q3_data_utils.py:104-121 | reading all specifications gives one condition per specification, each the reading of that specification |
| Filtering.NarrowSelects | q3_data_utils.py:109-119 | a successful narrowing by one condition is the selection by that condition |
| Filtering.SelectCompose | q3_data_utils.py:104-119 | selecting by one condition and then by the rest is selecting by all of them |
| Filtering.SelectAppend | q3_data_utils.py:109-119 | selection distributes over concatenation, so the order of rows is kept |
| Filtering.FilterSelects | q3_data_utils.py:103-122 | a successful filter returns the table whose rows are exactly the input rows passing every condition, in their order |
| Filtering.SelectAll | q3_data_utils.py:103 | selecting by no condition keeps every row |
| Filtering.FilterAppend | q3_data_utils.py:104-122 | filtering by `filters + more` is filtering by `filters` and then by `more`, and keeps no more rows than `filters` alone |
| Filtering.UnknownOperatorFails | q3_data_utils.py:120-121 | a specification with an unknown operator anywhere in the list makes the call fail |
| Filtering.InRangeExample | test_q3.py:86-88 | ages 10, 25, 40, 80 filtered by in_range [18, 65] leave 25 and 40 |
| Binning.ValidEdges | q3_data_utils.py:172 | edges `cut` accepts are non-decreasing, and strictly increasing unless there are exactly two |
| Binning.ValidLabels | q3_data_utils.py:172 | labels `cut` accepts: one per interval, none missing (a category cannot be null), none repeated, so each label names one interval |
| Binning.Label | q3_data_utils.py:172 | the label a cell gets is one of the labels or missing; a cell that is not a number gets a missing label |
| Binning.BinUnique | q3_data_utils.py:172 | with increasing edges, a value lies in at most one interval |
| Binning.BinExists | q3_data_utils.py:172 | a value lies in some interval if and only if it is within the outer edges |
| Binning.SearchSorted | q3_data_utils.py:172 | the binary search returns the first position whose edge is not below the value |
| Binning.LabelMeaning | q3_data_utils.py:172 | a value in interval i gets label i; a value in no interval gets a missing cell |
| Binning.CutCell | q3_data_utils.py:172 | search, the include_lowest adjustment and the label lookup give the label of the value's interval |
| Binning.BinColumnName | q3_data_utils.py:171 | the new column is `new_column` when given and non-empty, else `column + "_bins"` |
| Binning.AddColumnName | q3_data_utils.py:172 | the name is among the columns afterwards, every old column remains, and one column is added exactly when the name is new |
| Binning.CreateBins | q3_data_utils.py:156-173 | errors for a missing column, invalid edges, a text value and invalid labels (wrong count, a repeat or a missing label), in that order; on success a well-formed copy whose new column holds each row's label and whose other cells are unchanged |
| Binning.BinExample | test_q3.py:120-124 | with edges 0, 40, 60, 120, ages 20, 45, 70 get "<40", "40-59", "60+"; 0 gets "<40" and 130 gets none |
| Retyping.ParseTarget | q3_data_utils.py:147-152 | a target is recognised exactly when it is "datetime", "numeric" or "category", and each name selects its own target |
| Retyping.ConvertedCells | q3_data_utils.py:148-152 | the conversion is applied to the whole column at once and gives one cell per row |
| Retyping.Retype | q3_data_utils.py:146-153 | the type map keeps the table well formed, with the same columns and row count |
| Retyping.TargetOf | q3_data_utils.py:146 | the target found for a column is an entry of the map; no target means no entry names the column |
| Retyping.KeysOf | q3_data_utils.py:146 | the keys of the map, one per entry, in order |
| Retyping.RetypeLeavesOthers | q3_data_utils.py:146-152 | a column not named with a recognised target keeps every cell |
| Retyping.RetypeUnrecognised | q3_data_utils.py:146-152 | a map with no recognised target, such as one asking only for 'string', changes nothing and raises nothing |
| Retyping.RetypeStopsAtMissingColumn | q3_data_utils.py:146-152 | the first entry with a recognised target whose column is not in the table stops the call with `ColumnNotFound` for that column |
| Retyping.RetypeConverts | q3_data_utils.py:146-152 | when every recognised entry names an existing column and no column is named twice, no error occurs and each such column holds the conversion of its whole original column |
| Retyping.Frame.TransformTypes | q3_data_utils.py:126-153 | the in-place loop leaves the frame, and returns the error, that `Retype` gives for the old frame; columns and row count are kept |

## Left out

- `load_data` (q3_data_utils.py:11-27) reads a CSV file. File I/O is not part of this model.
- `summarize_by_group` (q3_data_utils.py:176-203) dispatches to arbitrary pandas aggregations by name. The model cannot see that library code.
- The printing `__main__` block and the unreachable `pass` statements are not modelled.
- Retyping.Frame.TransformTypes: the parsing by `pd.to_datetime`, `pd.to_numeric` and `astype('category')` is foreign library code. It is the uninterpreted parameter `convert`, applied to a whole column, so a conversion may look at the whole column (as format inference does). Only its keeping the column's length is assumed. The category dtype's metadata is not modelled.
- The pandas row index is not modelled. `drop_duplicates` and boolean masks keep the original index labels; the model's table has no index, only the order of its rows.
- Duplicate column labels, which pandas allows, are not modelled: a well-formed table has distinct column names.
- Cleaning.CleanData: Python's default arguments (`remove_duplicates=True`, `sentinel_value=-999`) are not defaults in Dafny. Callers pass them explicitly.
- Filtering.Parse: a `condition` key present with the value `None` makes `f.get("condition", ...)` return `None` even when `operator` is set. An `Option` field cannot tell a present `None` from an absent key, so the model reads `operator` in that case.
- Numbers are unbounded reals, not 64-bit floats. Rounding in the mean and median is not modelled. Infinities are not modelled. Integer and float columns are not told apart.
- Imputation.FillMissing: `astype(float)` also converts numeric strings. The model reports a `TypeMismatch` for any text cell in a mean/median column.
- Filtering.Narrow: pandas decides a mixed-type ordering error by the column's dtype. The model decides it cell by cell. So a column whose cells are all missing compares with a text value without error in the model, but raises in pandas.
- Filtering.Parse: a list given as the value of equals, greater_than or less_than is an element-wise comparison in pandas. The model rejects it as `BadFilterValue`.
- Filtering.Parse: in Python, `lo, hi = val` also unpacks a two-character string. In the model, only a two-element list gives in_range bounds.
- Binning.CreateBins: labels are cells. `labels=False` and `labels=None` (integer codes and interval labels) are not modelled. The result column's categorical dtype is not modelled.
- Binning.CreateBins: pandas' check that a text column cannot be cut is decided per cell, as for filtering.
- Binning.CreateBins: with an empty edge list pandas fails with an IndexError when it reads the first edge. The model fails too, but with the label error (or `TypeMismatch` for a text cell). Only the kind of error differs.
- Binning.CreateBins: a bin count given as an integer instead of an edge list is not modelled.
