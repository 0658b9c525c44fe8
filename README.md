# Column profiling helpers of `toolbox_ML.py`, modelled in Dafny

The toolbox works on tables: named columns of equal length, where a cell can
be missing (a null or NaN). Two of its helpers profile the columns:

- `describe_df` returns one record per column. The record holds the column
  name, its declared type, the percentage of missing cells, the number of
  distinct present values, and that number as a percentage of the row count.
- `tipifica_variables` suggests a type for each column from its number of
  distinct values and two thresholds given by the caller. The tests are
  tried in order: exactly two distinct values gives "Binaria"; fewer than
  `umbral_categoria` gives "Categórica"; a distinct-to-rows ratio of at
  least `umbral_continua` gives "Numérica Continua"; anything else gives
  "Numérica Discreta".

The model has two modules:

- `DataFrame` (`dataframe.dfy`) holds the table and the two counts the
  helpers read from it. A table is a row count plus a sequence of
  columns, and each cell is an `Option`. `NullCount` counts the missing
  cells. `NonNullValues` is the set of present values. `Nunique` is the
  size of that set. Their contracts and lemmas bound these counts.
- `ToolboxML` (`toolbox.dfy`) holds the two helpers. `DescribeDf` is a
  function, because the source builds its result as one expression of list
  comprehensions. `TipificaVariables` is a method with a `while` loop,
  because the source appends one record per column in a `for` loop. Its
  postcondition ties every record to the specification function
  `Classify`. Each record holds the label string that the source writes;
  `TypeName` turns the suggested type into that string.

Percentages and ratios are exact `real`s. With at least one column and zero
rows, the source raises `ZeroDivisionError` in both helpers. The reason is
that `nunique()` is a Python `int` divided by `len(df)`
(`toolbox_ML.py:25`, `toolbox_ML.py:47`). Both helpers therefore return a
`Result`. It is `Err(ZeroDivisionError)` exactly in that case. A table with
no columns gives an empty result whatever its row count.

## Model

| member | source | states |
|---|---|---|
| `DataFrame.NullCount` | toolbox_ML.py:23 | the number of missing cells equals the multiplicity of `None` in the column; it is at most the column length, 0 iff no cell is missing, and the length iff every cell is missing |
| `DataFrame.NonNullValues` | toolbox_ML.py:24 | a value is in the set iff some cell of the column holds it, so nulls are dropped |
| `DataFrame.NonNullValuesBound` | toolbox_ML.py:24 | the distinct present values plus the missing cells never exceed the column length |
| `DataFrame.Nunique` | toolbox_ML.py:24-25 | the distinct count (`nunique()` with nulls dropped) plus the null count is at most N, so 0 ≤ distinct count ≤ N; it is 0 iff every cell is null |
| `DataFrame.NuniqueAllDistinct` | toolbox_ML.py:24 | a column without nulls and without repeated values has as many distinct values as cells |
| `DataFrame.NuniqueInjectiveRecode` | toolbox_ML.py:24 | recoding the values through an injective map keeps the distinct count and the null count |
| `ToolboxML.Percentage` | toolbox_ML.py:23-25 | a count of at most N, as a percentage of N, lies in [0, 100]; it is 0 iff the count is 0 and 100 iff the count is N |
| `ToolboxML.Profile` | toolbox_ML.py:21-25 | a column's record carries its name and type; its null percentage is in [0, 100] and is 0 iff there are no nulls and 100 iff all cells are null; its distinct count is ≤ N; its cardinality percentage is in [0, 100] and is 100 when all values are present and distinct |
| `ToolboxML.DescribeDf` | toolbox_ML.py:20-27 | raises iff there is a column and no row; otherwise gives exactly one record per column, in column order, each the profile of that column |
| `ToolboxML.DescribeDfBounds` | toolbox_ML.py:21-25 | each record of a description has the column's name, null percentage in [0, 100] with its two iff cases, distinct count ≤ N, cardinality = distinct / N × 100 in [0, 100], and 100 for all-distinct columns without nulls |
| `ToolboxML.TypeName` | toolbox_ML.py:50-56 | each of the four label strings the source writes belongs to exactly one suggested type |
| `ToolboxML.Classify` | toolbox_ML.py:47-56 | the classification is total and ordered: "Binaria" iff cardinality is 2; "Categórica" iff not 2 and below `umbral_categoria`; "Numérica Continua" iff not 2, at least `umbral_categoria` and ratio ≥ `umbral_continua`; "Numérica Discreta" iff not 2, at least `umbral_categoria` and ratio < `umbral_continua` |
| `ToolboxML.SuggestionFor` | toolbox_ML.py:46-58 | the record appended for a column holds the column's name and the label string: "Binaria" iff the distinct count is 2, "Categórica" iff not 2 and below `umbral_categoria`, "Numérica Continua" iff not 2, at least `umbral_categoria` and ratio ≥ `umbral_continua`, "Numérica Discreta" iff not 2, at least `umbral_categoria` and ratio < `umbral_continua` |
| `ToolboxML.TipificaVariables` | toolbox_ML.py:43-60 | raises iff there is a column and no row; otherwise returns exactly one record per column, in column order, each the record `SuggestionFor` gives for that column |
| `ToolboxML.BinaryWhateverThresholds` | toolbox_ML.py:49-50 | a column with two distinct values is "Binaria" for every choice of thresholds |
| `ToolboxML.SameCardinalitySameType` | toolbox_ML.py:46-47 | two columns of one table with equal distinct counts get the same suggested type |
| `ToolboxML.RecodeKeepsType` | toolbox_ML.py:46-47 | the suggested type does not depend on the values themselves: an injective recoding of a column keeps its type |
| `ToolboxML.CategoricalMonotone` | toolbox_ML.py:51-52 | a "Categórica" column stays "Categórica" when `umbral_categoria` is raised |
| `ToolboxML.ContinuousMonotone` | toolbox_ML.py:53-54 | a "Numérica Continua" column stays "Numérica Continua" when `umbral_continua` is lowered |

## Left out

- The "Data Type" field (`toolbox_ML.py:22`) is pandas/numpy's dtype. The model cannot see that type system, so the field is an opaque string tag copied from the column.
- Building the pandas DataFrame that holds the result (`toolbox_ML.py:20`, `toolbox_ML.py:60`). The result is a sequence of records in column order.
- Floating-point rounding in the divisions. The model uses exact `real` arithmetic, so a ratio that float rounding would put just on the other side of `umbral_continua` is classified by its exact value.
- Cell values are taken to be hashable. `nunique()` hashes the cells, so a column holding unhashable objects such as lists or dicts raises `TypeError` in `describe_df` (`toolbox_ML.py:24`) and in `tipifica_variables` (`toolbox_ML.py:46`); that error is not modelled. Dafny's `==` on the value type stands for pandas' hash equality, so in an object column where 1, 1.0 and True count as one value, the model's values must be chosen to be equal too.
- Duplicate column names. With them, `df[col]` selects several columns, and the source fails in a way this model does not follow. `WellFormed` requires unique names and equal column lengths. The second is what a DataFrame guarantees anyway.
- The N = 0 case of `describe_df` (`toolbox_ML.py:23-25`). The null-percentage division alone would give NaN, but the cardinality division in the same call raises. So only the raise is modelled.
- `umbral_categoria` is an `int` and `umbral_continua` a `real`. Thresholds of other Python types are not modelled.
- The correlation and chi-squared feature selectors and the plotting helpers. They are not part of `toolbox_ML.py` and are not part of this model.
