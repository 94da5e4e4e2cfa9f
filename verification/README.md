# proxiflow transform core in Dafny

This project models the table transforms of proxiflow, a
configuration-driven preprocessing pipeline built on polars. The modelled parts are:

- the column check `check_columns`;
- the `Cleaner`, which drops rows with nulls, fills nulls with the mean, imputes with KNN, replaces IQR outliers with the median, and removes duplicates;
- min-max normalisation in `Normalizer`;
- one-hot encoding in `Engineer`;
- the checks and section accessors of `Config`;
- `generate_trace`, which formats a caught exception for re-raising;
- the two older cleaners `DataFlow` and prepflow's `Preprocessor`, which are identical.

A table is row-major: `Table(fields, rows)`. Each field has a name and a polars
dtype (`Int64`, `Float64`, `Utf8`, `Boolean`, or `UInt8` for indicators). Each
cell is an `Option` of a number (`real`), a string or a boolean. Raised Python
exceptions become `Errors.Error` values, carried in `Result`. The library
computations are parameters:

- the KNN imputer;
- polars' quantiles and median;
- polars' `mode`, constrained to return a most frequent cell;
- `os.path.abspath`;
- the formatter that prints a number inside an indicator column name;
- the outcome of reading and parsing the YAML file.

Modules, one per source concern:

- `Wrappers`, `Seqs`, `Tables`: results and options, sequence laws, and the table model.
- `Errors`: `generate_trace`.
- `CoreUtils`: `check_columns`.
- `Transforms`: drop, dedupe and mean fill, shared by both cleaners.
- `Cleaner`, `Legacy`, `Normalizer`, `Engineer`, `Config`.

## Model

| member | source | states |
|---|---|---|
| CoreUtils.CheckColumns | proxiflow/core/core_utils.py:4-20 | Raises `ValueError` with the all-missing message exactly when no requested entry is a column, the empty request included. Otherwise it returns the requested entries that are columns, in request order: a non-empty list of table columns. A request whose entries are all present comes back unchanged. |
| CoreUtils.RemoveEachMissing | proxiflow/core/core_utils.py:16-18 | Removing each missing entry once with `list.remove` leaves exactly the present entries, in request order. |
| CoreUtils.CheckColumnsIdempotent | proxiflow/core/core_utils.py:7-20 | Checking an already checked list returns it again. |
| Transforms.DropMissing | proxiflow/core/cleaner.py:103-114 | Keeps the schema. A row is kept iff it is an input row with no null; a table whose rows all contain a null yields no rows. |
| Transforms.DropMissingAppend | tests/test_cleaner.py:70-73 | Dropping distributes over concatenation of row lists, so each row is kept or dropped on its own. |
| Transforms.DropMissingIdempotent | proxiflow/core/cleaner.py:114 | Dropping nulls twice equals dropping once. |
| Transforms.RemoveDuplicates | proxiflow/core/cleaner.py:90-101 | Keeps the schema and yields no two equal rows. The set of rows is unchanged, and the row count equals the number of distinct input rows. |
| Transforms.RemoveDuplicatesIdempotent | proxiflow/core/cleaner.py:101 | Deduplicating twice equals deduplicating once. |
| Transforms.RemoveDuplicatesOfDistinct | proxiflow/core/cleaner.py:101 | A table without duplicate rows is returned unchanged. |
| Transforms.FillMean | proxiflow/core/cleaner.py:116-133 | Keeps the shape and dtypes; non-null cells and non-numeric columns are unchanged. A null in an Int64/Float64 column becomes the mean of that column's non-null values. It stays null when the column has none, which is an assumption about polars (see Left out). |
| Transforms.FillColumnNumbers | proxiflow/core/cleaner.py:130 | Filling k nulls with v adds k values and k·v to a column's numbers. |
| Transforms.FillMeanKeepsMean | proxiflow/core/cleaner.py:127-131 | After the fill, a numeric column with a value has no null, and its mean is unchanged. |
| Transforms.FillMeanIdempotent | proxiflow/core/cleaner.py:127-131 | Filling with the mean twice equals filling once. |
| Cleaner.HandleOutliers | proxiflow/core/cleaner.py:179-205 | Raises `TypeError` from the IQR line exactly when some Float64 column has no value. Otherwise it keeps the schema, non-Float64 columns and nulls. A Float64 value below Q1−1.5·IQR or above Q3+1.5·IQR becomes the column median; any other value is kept. |
| Cleaner.ReplaceOutliersMeaning | proxiflow/core/cleaner.py:191-203 | Once every Float64 column has a value, the replacement keeps the table well formed. It leaves non-Float64 cells and nulls alone and moves only values outside the fences to the column median. |
| Cleaner.OutliersWithinFences | proxiflow/core/cleaner.py:196-203 | When the median lies between the quartiles, every value of a Float64 column lies within the fences after the step. |
| Cleaner.CleanData | proxiflow/core/cleaner.py:21-88 | A zero-row table raises an unwrapped `ValueError`. `drop` wins over `mean`, and each returns at once. Otherwise KNN, outliers and dedupe run in that order, each on the previous step's output and each only when flagged. A KNN or outlier failure is re-raised as `Exception` whose message starts with that step's "Trying to …" prefix. Success keeps the schema, and flagged dedupe leaves no duplicates. |
| Cleaner.OutlierFailureMessage | proxiflow/core/cleaner.py:73-78 | An all-null Float64 column with outliers flagged yields an `Exception` naming the outlier step, `cleaner.py`, the IQR line and the `TypeError` text. |
| Errors.NatToStringRoundTrip | proxiflow/utils/errors.py:31-33 | The decimal line number printed in the trace parses back to the number. |
| Errors.Basename | proxiflow/utils/errors.py:30 | The file name is the part of the path after the last `/`. |
| Errors.ScanReversed | proxiflow/utils/errors.py:27-29 | The reversed scan finds the last frame whose absolute path is the target, and finds nothing exactly when no frame matches. |
| Errors.GenerateTrace | proxiflow/utils/errors.py:9-36 | With a matching frame, the result is `FILE: '<basename>', LINE: <line>:` and a newline, followed by the message, for the last matching frame. Without one it is `An error occurred: <message>`. The message is always a suffix of the result. |
| Legacy.MeanMissing | proxiflow/core/dataflow.py:87-105 | Raises the polars `fill_null` `ValueError` exactly when some Int64/Float64 column has no value. Otherwise it fills like the cleaner's mean fill and leaves no null in numeric columns. |
| Legacy.FillMode | proxiflow/core/dataflow.py:118-123 | Nulls in Int64/Utf8 columns become the column's mode; every other cell is unchanged. |
| Legacy.ModeMissing | proxiflow/core/dataflow.py:107-125 | Fails with `IndexError` on a zero-row table with an Int64/Utf8 column. Fails with the `fill_null` `ValueError` when such a column's mode is null. Otherwise it fills those columns' nulls with the mode. |
| Legacy.ModeMissingFillsWithMode | proxiflow/core/dataflow.py:121-122 | Every filled cell holds a most frequent value of its column. |
| Legacy.CleanData | proxiflow/core/dataflow.py:19-59 | A zero-row table raises `ValueError`. Dedupe, when flagged, runs first. Then the first set flag among drop, mean and mode picks the one strategy, which returns. Drop leaves only null-free input rows; success keeps the schema. |
| Legacy.DedupRunsFirst | prepflow/preprocessor/preprocessor.py:39-60 | With dedupe flagged, dropping or applying no strategy returns a table without duplicate rows. |
| Legacy.AgreesWithCleaner | prepflow/preprocessor/preprocessor.py:46-53 | Without dedupe, a successful drop or mean run of the older cleaner equals the newer `Cleaner.clean_data`, under the exact-real model (see the float line in Left out). |
| Normalizer.RescaleColumns | proxiflow/core/normalizer.py:62-70 | Each selected Int64/Float64 column becomes Float64 with values (x − min)/(max − min). Nulls, unselected and non-numeric columns are unchanged, as are names, column order and row count. |
| Normalizer.ScaleBounds | proxiflow/core/normalizer.py:69 | With min < max, results lie in [0, 1]; min maps to 0, max to 1, and order is preserved. |
| Normalizer.ScaleInverse | proxiflow/core/normalizer.py:69 | min + y·(max − min) recovers the original value. |
| Normalizer.RescaledInUnitInterval | proxiflow/core/normalizer.py:66-70 | Every rescaled cell of the result is in [0, 1]; the column's minimum becomes 0 and its maximum 1. |
| Normalizer.MinMaxNormalize | proxiflow/core/normalizer.py:39-72 | Returns the table unchanged when no requested name is a column. Otherwise each selected numeric column becomes Float64, with its values rescaled and its nulls kept. Every other column and all names are unchanged, as are column order and row count. |
| Normalizer.Normalize | proxiflow/core/normalizer.py:19-36 | Min-max runs only for a non-empty column list; otherwise the table comes back as it was. |
| Normalizer.NormalizeAsWritten | proxiflow/core/normalizer.py:19-72 | With the min-max step as written, an empty list returns the table, and a list of present names always succeeds. A failure is a `ColumnNotFoundError` naming an absent requested entry. Any success equals the corrected `Normalize`. |
| Normalizer.PythonRemoveMissing | proxiflow/core/normalizer.py:52-54 | The loop keeps every present name and never adds one. Absent names may survive it. |
| Normalizer.MinMaxAsWritten | proxiflow/core/normalizer.py:50-72 | If every requested name is present it succeeds; any failure is a `ColumnNotFoundError` naming an absent requested entry. |
| Normalizer.AsWrittenAgrees | proxiflow/core/normalizer.py:50-72 | Whenever the code as written does not raise, its result equals the corrected `MinMaxNormalize`. |
| Normalizer.AdjacentMissingNamesRaise | proxiflow/core/normalizer.py:52-54 | For a table with column `c` and request `["a", "b"]`, the code as written raises on `b`; the corrected version returns the table. |
| Engineer.OneHotEncode | proxiflow/core/engineer.py:36-47 | The encoded table is well formed, so every indicator cell fits its UInt8 column and every other cell its original dtype, and it has the same rows. Each column's block takes the column's place: its header block is the slice of the header starting at that column's offset, with the blocks of earlier columns before it, and each cell's block is the slice of its row at the same offset. The header is exactly as long as all blocks together. |
| Engineer.NothingListedIsIdentity | proxiflow/core/engineer.py:36-47 | With no listed name among the columns, encoding returns the table unchanged. |
| Engineer.IndicatorMeaning | tests/test_engineer.py:40-45 | Indicator `<column>_<v>` of a listed column is a UInt8 column at the column's place, 1 exactly in the rows whose value is v and 0 in the others. |
| Engineer.ExactlyOneHot | tests/test_engineer.py:43-45 | In each row exactly one indicator of a listed column is 1, the one for that row's value. |
| Engineer.DecodeEncoded | tests/test_engineer.py:42-45 | In every encoded row, the indicator columns that replaced a listed column decode back to the row's original cell. |
| Engineer.IndicatorCount | tests/test_engineer.py:34-45 | A listed column yields as many indicators as it has distinct values. |
| Engineer.UnlistedKept | tests/test_engineer.py:40-51 | An unlisted column keeps its name, dtype and every cell, and unlisted columns keep their relative order. |
| Engineer.Engineer | proxiflow/core/engineer.py:17-33 | One-hot encoding runs only when the configured list is non-empty; otherwise the table is returned as it was. |
| Engineer.EngineerIgnoresAbsentNames | proxiflow/core/engineer.py:17-47 | Whether or not the list is empty, a configuration naming no column of the table returns the table unchanged. |
| Config.LoadConfig | proxiflow/config/config.py:17-43 | A missing file raises `FileNotFoundError`, a YAML error a `ValueError` with the parser's text, and an empty document `ValueError`. A non-mapping or a non-string key raises `TypeError`. Otherwise the mapping is returned as parsed. |
| Config.LastIndex | proxiflow/config/config.py:56 | Finds the last entry whose key is the section name, and nothing exactly when no entry has that key. |
| Config.Get | proxiflow/config/config.py:45-118 | Each accessor returns a value stored under its fixed key. It raises `ValueError` with its section's message exactly when the key is absent. |
| Config.SetThenGet | proxiflow/config/config.py:55-58 | Setting a section makes it read back that value and leaves every other section unchanged. |
| Config.LoadThenGet | proxiflow/config/config.py:39 | A loaded document's section reads back the entry written last under its key. |

## Left out

- KNN imputation (proxiflow/core/cleaner.py:157-176) is sklearn's `KNNImputer`. It is a parameter that must keep the schema when it succeeds.
- Quartiles, median and mode come from polars, whose interpolation and tie-breaking are not modelled. They are parameters; the mode must return a most frequent cell, nulls counted.
- The cleaner's `_mode_missing` (proxiflow/core/cleaner.py:137-155) is switched off in `clean_data`, so it is not modelled.
- Float rounding and dtype casts are not modelled: numbers are exact reals, so an Int64 column filled with a fractional mean is not turned into Float64.
- Row order after `unique(keep="first")` is not specified by polars. The model keeps first occurrences in their input order. The contract of `Transforms.RemoveDuplicates` speaks only of the schema, the set of rows, the absence of duplicates and the count, which hold in any order. Three contracts rely on the keep-first order as equalities of tables, which polars does not guarantee. They are `Transforms.RemoveDuplicatesIdempotent` (deduplicating twice equals deduplicating once), `Transforms.RemoveDuplicatesOfDistinct` (a duplicate-free table comes back unchanged), and the composition clauses of `Cleaner.CleanData` and `Legacy.CleanData` that name `RemoveDuplicates` as the last step. Under polars these hold up to the order of rows.
- The `list.remove` calls mutate the caller's list. That side effect on the configuration is not modelled; the lists are values.
- `Normalizer.MinMaxNormalize`: requires every selected numeric column to have a value and a maximum above its minimum (`NonDegenerate`). The code has no guard; on a zero or null range polars yields NaN, infinities or nulls, which have no counterpart in the reals, so those columns are not modelled.
- `Normalizer.RescaleColumns`: carries the same `NonDegenerate` requires, for the same reason.
- `Normalizer.Normalize`: carries the same `NonDegenerate` requires, for the same reason.
- `Normalizer.MinMaxAsWritten`: carries the same `NonDegenerate` requires, for the same reason.
- `Normalizer.NormalizeAsWritten`: carries the same `NonDegenerate` requires, for the same reason.
- `Normalizer.AsWrittenAgrees`: carries the same `NonDegenerate` requires, for the same reason.
- `Normalizer.RescaledInUnitInterval`: carries the same `NonDegenerate` requires, for the same reason.
- `Transforms.FillMean`: an Int64/Float64 column with no value is assumed to keep its nulls. `fill_null(strategy="mean")` leaves that case to polars. Some polars releases leave the column unchanged; others raise a `ComputeError`, which `clean_data` would re-raise as `Exception("Trying to fill missing values with the mean: …")`. That failure is not modelled.
- `Normalizer.Normalize`: uses the corrected min-max step, so it returns the table where the code as written raises on an absent name that follows another absent one. `Normalizer.NormalizeAsWritten` is the version that raises there. Neither version raises polars' `DuplicateError` on a repeated name.
- `Normalizer.MinMaxAsWritten`: polars raises `DuplicateError` on a repeated name in `select`. That error is not modelled, and the `ColumnNotFoundError` message is taken to be just the column name.
- Reading the configuration's nested values (`config["min_max"]["columns"]`, the cleaning flags) is not modelled, and neither is the `KeyError` a missing flag raises. The model takes those values as parameters.
- `Engineer.OneHotEncode`: indicators within a block are ordered by first appearance of their value. polars may sort them by name; the two orders agree in the shipped test.
- `Engineer.OneHotEncode`: a listed name that is not a column is ignored. Clashes between generated and existing names are not checked.
- Numeric values in indicator names are printed by a parameter, because polars' number formatting is not modelled.
- File reading and YAML parsing are parameters: their outcome is `FileMissing`, `SyntaxError` or a parsed document. Other operating-system errors on open are not modelled.
- `os.path.abspath` and the interpreter's traceback are parameters of `generate_trace`.
- `Cleaner.CleanData`: the handlers around drop, mean fill and dedupe are not modelled, because those steps are assumed not to fail on a well-formed table. For the mean fill this rests on the assumption in the `Transforms.FillMean` line.
- `proxiflow/cli.py`, the data and logger modules, adprep and packaging are I/O, orchestration or stubs, so they are not modelled.
- The z-score, log and `feature_scaling` tests exercise methods that are not in the code, so they are not modelled.

## Findings

| source | as written | input that shows it | evidently intended | confidence | as-written member | corrected member |
|---|---|---|---|---|---|---|
| proxiflow/core/normalizer.py:52-54 | Removes names from the list while iterating over it, so the name after each removed one is never checked. | A table with the single column `c`, request `["a", "b"]`: `b` survives and `select` raises `ColumnNotFoundError`. | Drop every absent name, and return the table unchanged when none remain. | not executed | Normalizer.AdjacentMissingNamesRaise | Normalizer.MinMaxNormalize |
