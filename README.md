# Cleaning and triage core of the Mella data-analytics helpers

This project is a Dafny model of the cleaning, statistics and column-triage helpers of
`Mella_python_data_analytics.py`, a set of functions over pandas DataFrames. It covers:

- `handle_missing_values`: drop incomplete rows, fill missing cells with 0, or forward fill.
- `convert_to_numeric`: coerce one column to numbers; unparseable text becomes missing.
- `normalize_column`: min-max or z-score scaling, after converting the column.
- `regex_clean_column`: remove a set of characters from the text of a column.
- `drop_duplicates`: the in-place variant and the copy variant.
- `get_summary_stats`: the statistics of a column's numeric values, or an error record.
- `identify_numeric_columns`: the all-numeric columns and the mixed columns, with counts.

A table is a value `Table(names, rows)` of named columns over row-major rows of cells. A
cell is `Missing` (NaN or None), `Num(r)` (an exact real) or `Text(s)`. The caller's
DataFrame, which the in-place helpers change, is the class `Frames.DataFrame`. Its fields
`names` and `rows` are reassigned by `ConvertToNumeric`, `NormalizeColumn`,
`RegexCleanColumn` and `DropDuplicatesInPlace`. The helpers that return a new value
(`handle_missing_values`, the copy variant of `drop_duplicates` and `get_summary_stats`)
are functions on `Table`. `identify_numeric_columns` keeps its loop: it is a method that
appends to two lists, and it is proved against the specification functions
`Triage.NumericColumns` and `Triage.MixedColumns`.

Exceptions are values:

- `Outcome` (`Pass` or `Fail(e)`) for the in-place helpers.
- `Result<T>` (`Success(v)` or `Failure(e)`) for the helpers that return a value.
- `e` is one of:
  - `KeyError(column)`: an absent column.
  - `ValueError(message)`: an unknown normalisation method.
  - `RegexError(pattern)`: a pattern the regular-expression engine refuses.

The model takes the following library behaviour as parameters:

- the numeric parse of a text value, which `pd.to_numeric` does (`Parser = string -> Option<real>`);
- the sample standard deviation and the median;
- the rendering of a number as text by `astype(str)`.

Modules, in dependency order:

- `Cells`: cells, coercion and the non-missing values of a coerced column.
- `Numbers`: min, max, sum and mean.
- `Tables`: the table value, column lookup, reading a column and replacing a column.
- `Masks`: boolean row selection.
- `MissingValues`, `Normalize`, `RegexClean`, `Duplicates`, `Summary`, `Triage`: the value
  side of each helper.
- `Frames`: the mutable DataFrame and its methods.

## Model

All source paths are relative to the repository root.

| member | source | states |
|---|---|---|
| Cells.CoerceToCells | Mella_Python_Project/Mella_python_data_analytics.py:57-60 | coercing a column that is already numeric gives it back unchanged, so coercion is idempotent |
| Cells.Values | Mella_Python_Project/Mella_python_data_analytics.py:121 | `dropna()` on a coerced column: a value is kept exactly when it occurs in the column, and there are no more values than cells |
| Cells.ValuesAppend | Mella_Python_Project/Mella_python_data_analytics.py:121 | `dropna()` works cell by cell: the values of a + b are the values of a followed by those of b, so row order is kept |
| Cells.ValuesSingle | Mella_Python_Project/Mella_python_data_analytics.py:121 | a present cell contributes exactly its one value and a missing cell none; with Cells.ValuesAppend this gives one value per present cell, in row order |
| Cells.ValuesEmpty | Mella_Python_Project/Mella_python_data_analytics.py:121-123 | the dropped column is empty exactly when every coerced cell is missing |
| Numbers.Min | Mella_Python_Project/Mella_python_data_analytics.py:127 | the minimum of a non-empty list is one of its values and bounds all of them from below |
| Numbers.Max | Mella_Python_Project/Mella_python_data_analytics.py:128 | the maximum of a non-empty list is one of its values and bounds all of them from above |
| Numbers.Mean | Mella_Python_Project/Mella_python_data_analytics.py:129 | the mean is defined exactly when the list is non-empty; otherwise it is NaN |
| Numbers.MinMaxCollapse | Mella_Python_Project/Mella_python_data_analytics.py:69 | `max_val != min_val` holds exactly when the values are not all equal |
| Numbers.MeanBetween | Mella_Python_Project/Mella_python_data_analytics.py:127-129 | the mean of a non-empty list lies between its minimum and its maximum |
| Tables.IndexOf | Mella_Python_Project/Mella_python_data_analytics.py:59 | `df[column]` finds the column at the first position that carries its name |
| Tables.ColumnAfterSet | Mella_Python_Project/Mella_python_data_analytics.py:59 | reading back a replaced column gives what was written, and every other column is as before |
| Tables.SetColumnTwice | Mella_Python_Project/Mella_python_data_analytics.py:64-72 | writing the same column twice (the conversion, then the scaled values) is the same as the second write alone |
| Masks.Positions | Mella_Python_Project/Mella_python_data_analytics.py:112 | the positions a boolean mask keeps: exactly the true entries, in strictly increasing order |
| MissingValues.DropIncomplete | Mella_Python_Project/Mella_python_data_analytics.py:49-50 | `dropna()` on a table: a row survives exactly when it is complete, and no row is added |
| MissingValues.DropIncompleteAppend | Mella_Python_Project/Mella_python_data_analytics.py:49-50 | rows are dropped one at a time, so the survivors of a + b are those of a followed by those of b, and the row order is kept |
| MissingValues.DropIncompleteKeepsComplete | Mella_Python_Project/Mella_python_data_analytics.py:49-50 | a table with no missing cell comes back unchanged |
| MissingValues.FillZero | Mella_Python_Project/Mella_python_data_analytics.py:51-52 | `fillna(0)`: every missing cell becomes 0, every other cell is kept, and every row is complete |
| MissingValues.FFillIsNearest | Mella_Python_Project/Mella_python_data_analytics.py:53-54 | forward fill agrees with the reference: each cell becomes the nearest non-missing cell at or above it in its column |
| MissingValues.FFillEverywhere | Mella_Python_Project/Mella_python_data_analytics.py:53-54 | the same, for every cell of the table at once |
| MissingValues.NearestMeaning | Mella_Python_Project/Mella_python_data_analytics.py:53-54 | the reference keeps a present cell; it stays missing exactly when nothing at or above it is present; otherwise it takes the closest present cell above |
| MissingValues.HandleMissingValues | Mella_Python_Project/Mella_python_data_analytics.py:47-55 | the column names and rectangular shape are kept; "drop" drops incomplete rows; "fill" keeps every row, completes it with 0 and keeps the present cells; "ffill" keeps every row and fills each cell from the nearest present cell above; any other token returns the table unchanged |
| MissingValues.FillThenDrop | Mella_Python_Project/Mella_python_data_analytics.py:49-52 | after "fill", "drop" removes nothing |
| Normalize.Rescale | Mella_Python_Project/Mella_python_data_analytics.py:70 | element-wise `(x - shift) / scale` keeps the length and keeps missing cells missing and only those |
| Normalize.MinMaxRange | Mella_Python_Project/Mella_python_data_analytics.py:66-72 | every non-missing min-max scaled value lies in [0, 1] |
| Normalize.MinMaxEnds | Mella_Python_Project/Mella_python_data_analytics.py:66-70 | with two different values present, the minimum scales to 0, the maximum to 1, and missing cells stay missing |
| Normalize.MinMaxDegenerate | Mella_Python_Project/Mella_python_data_analytics.py:69-72 | a constant column, or one with no numeric value, becomes all zeros |
| Normalize.MinMaxMonotone | Mella_Python_Project/Mella_python_data_analytics.py:70 | min-max scaling preserves the order of any two values |
| Normalize.ZScoreCentred | Mella_Python_Project/Mella_python_data_analytics.py:76-79 | when the mean and a non-zero deviation exist, the standardised values have mean 0 and missing cells stay missing |
| Normalize.ZScoreDegenerate | Mella_Python_Project/Mella_python_data_analytics.py:76-81 | an all-missing column, an undefined deviation or a zero deviation gives all zeros |
| Normalize.SumRescaleAll | Mella_Python_Project/Mella_python_data_analytics.py:79 | the shifted and scaled values sum to (sum - n * shift) / scale |
| RegexClean.StripChars | Mella_Python_Project/Mella_python_data_analytics.py:91-92 | removing characters never lengthens a string |
| RegexClean.StripMembers | Mella_Python_Project/Mella_python_data_analytics.py:91-92 | no character of chars survives, and every other character of the input does |
| RegexClean.StripAppend | Mella_Python_Project/Mella_python_data_analytics.py:92 | characters are removed one at a time, so cleaning a + b is cleaning a, then b, keeping the order |
| RegexClean.StripNothing | Mella_Python_Project/Mella_python_data_analytics.py:92 | a string holding none of the characters is left as it is |
| RegexClean.StripIdempotent | Mella_Python_Project/Mella_python_data_analytics.py:92 | cleaning twice is the same as cleaning once |
| RegexClean.StripCurrency | Mella_Python_Project/Mella_python_data_analytics.py:91-92 | removing "$" and "," from "$1,200" gives "1200" |
| RegexClean.StripMetacharacters | Mella_Python_Project/Mella_python_data_analytics.py:91 | characters that are regular-expression syntax are removed literally like any other: removing ".", "*" and "[" from "a.b*[c" gives "abc" |
| RegexClean.CleanColumnStrips | Mella_Python_Project/Mella_python_data_analytics.py:92 | each cleaned cell is text that holds no removed character and every other character of the original text |
| RegexClean.CleanColumnKeepsClean | Mella_Python_Project/Mella_python_data_analytics.py:92 | a text cell holding none of the characters is unchanged |
| RegexClean.CleanColumnIdempotent | Mella_Python_Project/Mella_python_data_analytics.py:89-93 | cleaning a cleaned column changes nothing |
| Duplicates.Lookup | Mella_Python_Project/Mella_python_data_analytics.py:112 | the subset's names resolve exactly when each is a column, each to the position of its name; otherwise KeyError names a subset entry that is not a column |
| Duplicates.DropDuplicates | Mella_Python_Project/Mella_python_data_analytics.py:111-114 | an empty frame comes back as it is; KeyError exactly when the frame is non-empty and a subset name is absent; otherwise the same columns, a rectangular shape, no more rows, and only rows of the input |
| Duplicates.DropDuplicatesKept | Mella_Python_Project/Mella_python_data_analytics.py:112 | the surviving rows are the input rows at strictly increasing positions, and a position survives exactly when the keep policy keeps it |
| Duplicates.DropDuplicatesDistinct | Mella_Python_Project/Mella_python_data_analytics.py:112 | no two surviving rows share a key |
| Duplicates.DropDuplicatesCovers | Mella_Python_Project/Mella_python_data_analytics.py:112 | under 'first' or 'last', every key of the input survives in some row |
| Duplicates.DropDuplicatesCount | Mella_Python_Project/Mella_python_data_analytics.py:112-113 | under 'first' or 'last', as many rows survive as there are different keys |
| Duplicates.DropDuplicatesWholeRows | Mella_Python_Project/Mella_python_data_analytics.py:106-112 | with no subset, the surviving rows are pairwise different |
| Duplicates.DropDuplicatesIdempotent | Mella_Python_Project/Mella_python_data_analytics.py:112 | dropping duplicates from the result changes nothing |
| Summary.SummaryStats | Mella_Python_Project/Mella_python_data_analytics.py:118-134 | KeyError exactly when the column is absent; an error record carries the "no numeric values" message; a record has count > 0, count + null_count equal to the row count, and min <= max |
| Summary.SummaryErrorIff | Mella_Python_Project/Mella_python_data_analytics.py:121-124 | the error record comes back exactly when no cell of the column coerces to a number |
| Summary.SummaryRecord | Mella_Python_Project/Mella_python_data_analytics.py:126-133 | a column with at least one value that coerces gives a record; in it, min and max are values of the column, every numeric value lies between them, the mean lies between them, and count is the number of values that coerce |
| Triage.CountNumeric | Mella_Python_Project/Mella_python_data_analytics.py:187-188 | the count of cells that coerce is at most the number of rows |
| Triage.CountNumericExtremes | Mella_Python_Project/Mella_python_data_analytics.py:188-191 | the count equals the row count exactly when every cell coerces, and is 0 exactly when none does |
| Triage.CountNumericValues | Mella_Python_Project/Mella_python_data_analytics.py:188 | the triage count equals the number of values `get_summary_stats` keeps after coercion and `dropna()` |
| Triage.Entry | Mella_Python_Project/Mella_python_data_analytics.py:194 | a mixed entry carries the column name, and its two counts add up to the row count |
| Triage.VisitColumn | Mella_Python_Project/Mella_python_data_analytics.py:187-194 | one column's visit appends its name to the numeric list when its count is positive and equals the row count, and appends its entry to the mixed list when its count is positive and smaller |
| Triage.ListsPicked | Mella_Python_Project/Mella_python_data_analytics.py:180-196 | the two lists are the names and entries of the columns the numeric and mixed masks select, in column order |
| Triage.NumericIff | Mella_Python_Project/Mella_python_data_analytics.py:190-192 | a column is in the numeric list exactly when the frame has rows and every cell of the column coerces |
| Triage.MixedIff | Mella_Python_Project/Mella_python_data_analytics.py:190-194 | a column has a mixed entry exactly when some but not all of its cells coerce; the entry is (name, numeric count, row count minus numeric count) |
| Triage.NeitherList | Mella_Python_Project/Mella_python_data_analytics.py:190 | a column none of whose cells coerces is in neither list |
| Triage.ListsInColumnOrder | Mella_Python_Project/Mella_python_data_analytics.py:185-194 | both lists follow column order: an earlier entry names an earlier column |
| Frames.Converted | Mella_Python_Project/Mella_python_data_analytics.py:57-60 | after conversion, column j holds no text, each cell coerces as before, and every other cell is untouched |
| Frames.ConvertedTwice | Mella_Python_Project/Mella_python_data_analytics.py:57-60 | converting an already converted column changes nothing |
| Frames.DataFrame.ConvertToNumeric | Mella_Python_Project/Mella_python_data_analytics.py:57-60 | an absent column raises KeyError and leaves the frame unchanged; otherwise the frame's column is converted in place and the names are kept |
| Frames.DataFrame.NormalizeColumn | Mella_Python_Project/Mella_python_data_analytics.py:62-87 | an absent column raises KeyError with nothing changed; "minmax" and "zscore" replace the column by the scaled coerced values; any other token raises the ValueError with the conversion already made in the caller's frame |
| Frames.DataFrame.RegexCleanColumn | Mella_Python_Project/Mella_python_data_analytics.py:89-93 | an absent column raises KeyError; an empty chars on a frame with rows raises the pattern error with nothing changed; otherwise (including an empty chars on a frame without rows, where `replace` returns before compiling) the column becomes its cleaned text and every other cell is untouched |
| Frames.DataFrame.DropDuplicatesInPlace | Mella_Python_Project/Mella_python_data_analytics.py:106-110 | the caller's frame becomes what the copy variant returns, or raises and stays as it was |
| Frames.DataFrame.DropDuplicatesCopy | Mella_Python_Project/Mella_python_data_analytics.py:111-114 | returns the deduplicated frame, well formed, and leaves the caller's frame untouched |
| Frames.DataFrame.IdentifyNumericColumns | Mella_Python_Project/Mella_python_data_analytics.py:180-196 | the loop's two lists are exactly the numeric and mixed lists of the specification, with the properties proved in Triage; the frame is only read |

## Left out

- CSV loading, the database connection, plotting, `explore_dataframe` and `convert_datetime_column` are not part of this model. These are I/O or library calls with no logic of the core's own.
- The console messages printed by `normalize_column` and `drop_duplicates` are not modelled.
- Floating point is not modelled: numbers are exact reals, and infinities do not occur.
- NaN and None are both the `Missing` cell. RegexClean.AsText renders every missing cell as "nan"; pandas renders a None in an object column as "None", which the model does not distinguish.
- How `pd.to_numeric` parses text, how `astype(str)` renders a number, and the median and sample standard deviation are parameters. Their numeric definitions are not modelled.
- Row index labels are not modelled: rows are identified by position.
- Repeated column names: the `DataFrame` class excludes them (its `Valid` is `Tables.WellFormed`), but the value functions do not.
- Summary.SummaryStats: on a table with a repeated column name it reads the first column carrying the name, where pandas selects all of them as a DataFrame and `pd.to_numeric` raises TypeError.
- Duplicates.DropDuplicates: on a table with a repeated column name in the subset it compares on the first column carrying that name, where pandas compares on every column carrying it.
- Defaults are not modelled: callers pass `method` ("drop" or "minmax" in the source), `subset` (None), `keep` ('first') and `inplace` (False) explicitly.
- `subset` is `None` or a list of names. A single string is the one-element list.
- Duplicates.DropDuplicates: with an empty subset list on a non-empty frame, the model compares every row on the empty key, so only the first row ('first'), the last row ('last') or no row (False) survives. pandas instead raises ValueError there, because `DataFrame.duplicated` unpacks an empty list of key columns.
- `keep` is one of 'first', 'last' or False; any other value cannot be represented.
- Duplicates.Lookup: the KeyError names the first absent name only, whereas pandas reports all absent names at once.
- MissingValues.HandleMissingValues: "ffill" follows the `fillna(method="ffill")` behaviour. Newer pandas versions deprecate that form.
- Normalize.MinMaxScale, Normalize.ZScore: the numeric type of the column after scaling (float versus integer zeros) is not modelled.
- RegexClean.Refused: the text of the escaped pattern is not modelled, only when it is refused. Removal is modelled directly as removing any character of `chars`.
- The aliasing of the DataFrame passed to `normalize_column` and `convert_to_numeric` is modelled as a single `DataFrame` object. The returned reference, the same object, is not represented separately.
