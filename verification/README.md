# Table-cleaning policies of a water-potability pipeline, in Dafny

This project models the cleaning module `src/data/cleaning_data.py`: the
stages that turn a freshly loaded table into one fit for modelling. Each
stage is a pure function of an immutable table:

- `remove_duplicates` drops repeated rows, keeping first occurrences;
- `handle_missing_values` drops incomplete rows (`"drop"`), fills missing
  cells with a value or by interpolation (`"fill"`), or returns the table
  unchanged for any other strategy name;
- `check_data_types` compares column dtypes with expectations and only
  reports;
- `remove_outliers` applies one of four policies to one column: `"normal"`
  and `"skewed"` keep the rows inside an inclusive interval, `"uniform"`
  clips to the 5th/95th percentiles, `"polynomial"` keeps positive values and
  takes their logarithm; an unknown policy or absent column changes nothing;
- `remove_empty_columns` drops the columns in which every cell is missing;
- `clean_data` runs these in order, threading each stage's output into the
  next and applying the outlier policies in dictionary order.

A table (`Frames.Table`) is a sequence of column names and a sequence of
rows of `Option<real>` cells; `None` is the missing marker (NaN). All
tables are rectangular (`Table.WellFormed`), which is the only precondition
the stages carry. Boolean-mask indexing (`df[mask]`), which the source uses
for every row filter, is modelled once (`Sequences.Select`) and described
independently of how it is computed: the result lists the input at a
strictly increasing run of positions (`SelectedBy`), and the positions are
exactly those where the test holds. Every comparison with a missing value
or a NaN bound is false, so such rows are dropped by the `"normal"`,
`"skewed"` and `"polynomial"` filters; clipping leaves a missing cell
missing.

The floating-point work is delegated: the mean, standard deviation,
quantiles, natural logarithm and interpolation estimates are fields of
`Frames.Numerics` (uninterpreted functions). A statistic is `None` where
pandas yields NaN (for example the standard deviation of a single value),
and the model then drops every row under `"normal"`/`"skewed"`.

Error handling follows the source for the error paths the model covers: an
invalid strategy or distribution name and an absent column are caught, and
the stage returns the table unchanged.

Two behaviours of the code worth noting:

- `check_data_types` wraps the whole loop in one `try`, so the first
  expected column that is absent ends the report; the remaining columns are
  not checked (`Cleaning.CheckDataTypes`).
- `handle_missing_values` with `"fill"` and no value interpolates rather
  than failing; the line that would raise is commented out.

## Model

| member | source | states |
|---|---|---|
| Cleaning.KeepRows | src/data/cleaning_data.py:106 | boolean-mask row selection keeps the columns and returns exactly the rows passing the test, at strictly increasing positions; no row is added and no missing cell appears |
| Cleaning.RemoveDuplicates | src/data/cleaning_data.py:20-23 | the result holds exactly the rows of the input with columns unchanged; when the table has a column, no two rows are equal and they are listed in order of first occurrence; a table without columns is returned as it is (pandas' early return for an empty frame) |
| CleaningProperties.RemoveDuplicatesIdempotent | src/data/cleaning_data.py:21 | removing duplicates twice equals removing them once |
| Cleaning.DropMissing | src/data/cleaning_data.py:43-44 | `"drop"` keeps exactly the rows with no missing cell, in order, with the same columns; every complete input row survives |
| CleaningProperties.DropMissingIdempotent | src/data/cleaning_data.py:44 | dropping incomplete rows twice equals dropping them once |
| Cleaning.FillMissing | src/data/cleaning_data.py:50-51 | `"fill"` with a value keeps the shape, turns every missing cell into that value, keeps every present cell, and leaves no missing cell |
| CleaningProperties.FillAfterDrop | src/data/cleaning_data.py:44-51 | filling after dropping changes nothing |
| CleaningProperties.DropAfterFill | src/data/cleaning_data.py:44-51 | dropping after filling with a value drops nothing |
| Cleaning.Interpolate | src/data/cleaning_data.py:47-48 | `"fill"` without a value keeps the shape and every present cell; a table with no missing cell is returned as is |
| Cleaning.HandleMissingValues | src/data/cleaning_data.py:42-61 | dispatch: `"drop"` is `DropMissing` and leaves no missing cell; `"fill"` keeps the shape and present cells, and with a value turns every missing cell into that value (`FillMissing`), without one interpolates; any other strategy returns the input unchanged |
| Cleaning.CheckDataTypes | src/data/cleaning_data.py:74-84 | one report per expected column in order, match or mismatch by dtype; the first absent column is reported and ends the check; the table is only read |
| Cleaning.NormalBounds | src/data/cleaning_data.py:103-106 | the bounds are mean − 3·std and mean + 3·std, NaN when either statistic is, and contain the mean when std ≥ 0 |
| Cleaning.SkewedBounds | src/data/cleaning_data.py:108-113 | the bounds are Q1 − 1.5·IQR and Q3 + 1.5·IQR, NaN when a quartile is, and enclose [Q1, Q3] whenever Q1 ≤ Q3 |
| Cleaning.FilterWithin | src/data/cleaning_data.py:106 | keeps exactly the rows whose value lies in the inclusive interval, in order, columns untouched; a missing value or NaN bound drops the row |
| CleaningProperties.FilterWithinIdempotent | src/data/cleaning_data.py:115 | filtering again with the same bounds drops nothing |
| Cleaning.NormalFilter | src/data/cleaning_data.py:102-106 | `"normal"` is a pure row filter: exactly the rows inside the normal bounds of the input column, in order |
| Cleaning.SkewedFilter | src/data/cleaning_data.py:107-115 | `"skewed"` is a pure row filter: exactly the rows inside the IQR bounds of the input column, in order |
| Cleaning.ClipCell | src/data/cleaning_data.py:120 | a present value below the lower bound becomes the lower bound, one above the upper bound becomes the upper bound, one inside is unchanged; a missing cell stays missing; a NaN bound is no bound |
| Cleaning.ClipColumn | src/data/cleaning_data.py:120 | only the clipped column changes; row count and every other column are preserved |
| CleaningProperties.ClipColumnIdempotent | src/data/cleaning_data.py:120 | with fixed bounds, clipping twice equals clipping once |
| Cleaning.UniformClip | src/data/cleaning_data.py:116-120 | `"uniform"` keeps the shape and other columns; each cell of the column is clipped to the input's 5th and 95th percentiles: below p5 becomes p5, above p95 becomes p95, inside unchanged (a NaN percentile is no bound) |
| Cleaning.PolynomialTransform | src/data/cleaning_data.py:122-125 | `"polynomial"` keeps exactly the rows with a positive value, in order, and replaces that value by its logarithm, other cells untouched |
| Cleaning.RemoveOutliers | src/data/cleaning_data.py:101-133 | dispatch on the policy name; an unknown name or absent column returns the input unchanged; no policy adds rows or missing cells |
| Cleaning.KeptColumns | src/data/cleaning_data.py:146 | the positions kept are exactly the columns holding a present cell, increasing |
| Cleaning.RemoveEmptyColumns | src/data/cleaning_data.py:145-148 | drops exactly the all-missing columns, keeps the others in order with their cells, keeps every row; every remaining column holds a present cell |
| CleaningProperties.RemoveEmptyColumnsIdempotent | src/data/cleaning_data.py:146 | removing empty columns twice equals removing them once |
| CleaningProperties.RemoveEmptyColumnsOnCompleteTable | src/data/cleaning_data.py:146 | a non-empty table without missing cells loses no column |
| Pipeline.ApplyPolicies | src/data/cleaning_data.py:184-186 | each policy runs on the previous one's output; columns kept, rows never added, no missing cell introduced |
| Pipeline.ApplyPoliciesSequential | src/data/cleaning_data.py:185-186 | running policies a then b equals running a and then b on its result |
| Pipeline.ApplyPoliciesNoOp | src/data/cleaning_data.py:126-133 | policies naming unknown distributions or absent columns leave the table unchanged |
| Pipeline.CleanFrame | src/data/cleaning_data.py:173-189 | the cleaned table has no more rows than the input, its columns are a subsequence of the input's, every column holds a present cell, and it has no missing cell under `"drop"` or `"fill"` with a value |
| Pipeline.CleanData | src/data/cleaning_data.py:167-195 | a non-table input comes back unchanged; a table comes back as `CleanFrame` cleans it, so with no all-missing column and, under `"drop"` or `"fill"` with a value, no missing cell; the type report is computed on the input's columns and is empty without expected types |
| Pipeline.CleanFrameKeepsColumnsWhenComplete | src/data/cleaning_data.py:176-189 | because empty columns are removed after `"drop"` (or `"fill"` with a value), a cleaned table with at least one row keeps every input column |
| Pipeline.CleanFrameCanLeaveDuplicates | src/data/cleaning_data.py:173-177 | because duplicates are removed before missing values are filled, two distinct input rows can become equal output rows |
| Pipeline.CleanDataTypeCheckReadOnly | src/data/cleaning_data.py:179-181 | the cleaned table is the same whether or not a type check runs |

## Left out

- Printing: every `print` is omitted, including the counts reported by each stage; the type check's lines are returned as `TypeReport` data instead.
- Floating-point numerics: mean, standard deviation, quantiles, `log` and interpolation are uninterpreted parameters (`Numerics`), so no property depends on their values.
- Float64 arithmetic: cells are exact reals, so ±inf cannot occur, and the bounds `mean − 3·std` and `Q1 − 1.5·IQR` / `Q3 + 1.5·IQR` are computed exactly. The source computes them in float64 with rounding, so a value lying at a bound can be kept by the model and dropped by the program, or the other way round.
- Cleaning.HandleMissingValues: `fill_value` is modelled as a present real scalar; a NaN fill value (which `fillna` leaves without effect) and a per-column dict or Series (which fills only the columns it names) leave cells missing in the source and are not modelled, so the "no missing cell after `"fill"` with a value" promise holds only for a real scalar.
- Error paths beyond the modelled ones: if `np.log` raises in the `"polynomial"` branch (line 125), the source returns the already filtered frame without the logarithm applied, since `df` was rebound at line 123; the model has no such failure because every cell is a real.
- Cleaning.Interpolate: states only that shape and present cells are kept; the linear estimates pandas computes are not modelled.
- Cleaning.CheckDataTypes: pandas dtype inference is a parameter (`dtypeOf`), and dtype comparison is string equality.
- Cleaning.ClipCell: the treatment of a NaN threshold (ignored) and of reversed scalar thresholds (ordered first) is pandas' `Series.clip` behaviour, outside this repository.
- In-place mutation: the `"uniform"` branch assigns the clipped column into the frame passed in (line 120); the `"polynomial"` branch first rebinds `df` to a filtered copy (line 123), so its assignment does not reach the caller. The model is purely functional and returns new tables.
- Non-numeric columns, dtype changes on fill, and the exceptions they raise are not modelled: every cell is a real or missing.
- Duplicate column names: lookup uses the first column of a name; pandas would select several.
- `src/data/load_data.py`, `src/data/describe_data.py`, `src/data/splitting_data.py`, `src/models/` and `src/visualization/`: file I/O, printing, library-delegated splitting, model fitting and plotting are not part of this model.
