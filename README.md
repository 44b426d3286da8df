# UltimateDataPipeline in Dafny

A model of the cleaning stages of `UltimateDataPipeline` (`data-cleaner.py`). The pipeline
holds one table, `self.df`. It rewrites that table in place through five stages: `standardize`,
`handle_garbage`, `impute_missing`, `handle_outliers` and `optimize`. Every stage leaves an empty
table (no rows or no columns) as it is.

- **`Table`**: the table as a value.
  - `Frame(names, kinds, rows)` holds the column labels (which may repeat) and one dtype per
    column (`Numeric`, `Object`, `Categorical`, `Datetime`).
  - Each row is a sequence of cells `Missing | Num(real) | Text(string)`.
  - `WellFormed` says that every row has one cell per column and that number and datetime
    columns hold no text.
  - A stage looks a column up by label. When that label names several columns, `df[col]` is a
    DataFrame and the stage raises there. `FirstAmbiguous` finds that column, and a stage ends
    with `Raised(AmbiguousLabel(..))` after having rewritten the columns before it.
- **`Names`**: the label chain `strip → lower → ' '→'_' → drop [^\w\s]`, with Python's `isspace`,
  `\w` and `lower()`.
- **`Stats`**: the statistics.
  - `Series.quantile` with linear interpolation over the sorted present values.
  - `median`, proved equal to the 0.5-quantile.
  - `mode()[0]`, the smallest of the most frequent values.
  - The IQR fences.
- **`Standardize`, `Garbage`, `Impute`, `Outliers`, `Optimize`**: each stage as a function from the
  table to the table it leaves, and its status, with the lemmas about it.
- **`Pipeline`**: the column loops of the stages as methods, each proved equal to its stage function,
  and the class `DataPipeline` with the fields `df` and `initialShape`. Its stage methods store
  the new table in `df` and return what the stage computes (`removed`, `imputed_count`,
  `outlier_cols`, and whether it raised).

The label chain replaces only the plain space with `_`. Other whitespace survives the chain, and
dropping a punctuation mark can leave it last, so a second run strips it (`"a\t!"` → `"a\t"` →
`"a"`). The chain is therefore idempotent only on labels whose only whitespace is the plain space
(`Names.NormalizeIdempotent`, `Standardize.StandardizeIdempotent`), and
`Names.NormalizeNotIdempotent` proves the counterexample for the others.

## Model

| member | source | states |
|---|---|---|
| Pipeline.DataPipeline.constructor | data-cleaner.py:22-23 | `df` is the loaded table and `initialShape` its (rows, columns) |
| Pipeline.DataPipeline.Standardize | data-cleaner.py:55-73 | `df` becomes the standardized table, and the status says whether and where the stage raised; `initialShape` is kept |
| Pipeline.DataPipeline.HandleGarbage | data-cleaner.py:75-89 | `df` becomes the deduplicated table without all-missing rows, and `removed` is the number of rows before minus the number after |
| Pipeline.DataPipeline.ImputeMissing | data-cleaner.py:91-114 | `df` becomes the imputed table, and `imputedCount` is `imputed_count` |
| Pipeline.DataPipeline.HandleOutliers | data-cleaner.py:116-188 | 'remove' drops the outlier rows and reports how many went; 'cap' clips and reports `outlier_cols`; any other method raises `InvalidMethod` and leaves `df` as it was |
| Pipeline.DataPipeline.HandleOutliersWithDefaults | data-cleaner.py:116 | `handle_outliers()` without arguments is 'cap' with multiplier 1.5 |
| Pipeline.DataPipeline.Optimize | data-cleaner.py:190-209 | `df` becomes the table with its dtypes optimized |
| Pipeline.EmptyTableUntouched | data-cleaner.py:57-59 | every stage leaves a table with no row or no column as it is and does not raise (also lines 77-78, 93-94, 126-127, 192-193) |
| Pipeline.StandardizeTable | data-cleaner.py:61-71 | the renaming then the column loop over `object` columns yields exactly `Standardized`, raising at the first object column whose new label is shared |
| Pipeline.StripColumn | data-cleaner.py:68-70 | one column step: the column is replaced by its `astype(str).str.strip()` exactly when it is an `object` column, and every other column stays as it was |
| Pipeline.StripObjectColumns | data-cleaner.py:68-70 | the cell loop strips the `object` columns in order and stops at the first object column whose new label is shared; the columns before the stop are rewritten and the rest are unchanged |
| Pipeline.StandardizedAtStop | data-cleaner.py:61-70 | the standardized table is the renamed table with the object columns before the stop column stripped, and the status raises at that column when it exists |
| Pipeline.ImputeTable | data-cleaner.py:93-108 | the stage yields exactly `Imputed` and `ImputeStatus`, and the counter is the number of columns before the stop with a missing cell; an empty table is left as it is |
| Pipeline.FillMissingColumns | data-cleaner.py:96-108 | the column loop stops at the first shared label; every column before it that has a missing cell is filled, and `imputed_count` counts those columns |
| Pipeline.ImputeColumn | data-cleaner.py:98-108 | one column step: a column with a missing cell is counted and filled with its median or mode, and a column without one is left as it is and not counted |
| Pipeline.RemoveOutlierRows | data-cleaner.py:131-155 | the mask loop then `df[mask]` yields exactly the rows within every fence, and `removed` is the number of dropped rows; a raise drops nothing |
| Pipeline.NarrowMask | data-cleaner.py:142-152 | after a number column, the mask says of each row whether it lies within the fences of every column so far |
| Pipeline.MaskSkipsColumn | data-cleaner.py:129-135 | a column that is not a number column leaves the mask as it is |
| Pipeline.MaskSelectsRowsWithin | data-cleaner.py:152-154 | applying the finished mask is filtering the rows by "within all fences" |
| Pipeline.CapOutlierColumns | data-cleaner.py:161-177 | the column loop yields exactly `Capped`, and `outlierCols` counts the number columns before the stop with a value outside their fences |
| Pipeline.CapColumn | data-cleaner.py:163-177 | one column step: `has_outliers` is whether the column has fences and a value outside them, and only such a column is clipped |
| Pipeline.ClipColumn | data-cleaner.py:176-177 | the two `np.where` steps together cap each value of the column to the fences and change no other column |
| Pipeline.OptimizeColumn | data-cleaner.py:196-206 | one column step: a converted date column becomes `datetime64`, otherwise an `object` column with few distinct values becomes `category` |
| Pipeline.OptimizeTable | data-cleaner.py:195-206 | the column loop yields exactly `Optimized`, raising at the first shared label |
| Names.LowerCharFacts | data-cleaner.py:63 | a lower-cased character is not upper case and keeps its word or whitespace class |
| Names.Lower | data-cleaner.py:63 | `str.lower()` keeps the length, leaves no upper-case letter, keeps each character's word and whitespace class, and leaves every character that is not upper case as it is |
| Names.LowerIdempotent | data-cleaner.py:63 | lower-casing twice is lower-casing once |
| Names.StripLeading | data-cleaner.py:62 | the result is a suffix of the input, and only whitespace precedes it; it starts with no whitespace |
| Names.StripTrailing | data-cleaner.py:62 | the result is a prefix of the input, and only whitespace follows it; it ends with no whitespace |
| Names.Strip | data-cleaner.py:62 | `str.strip()` is a slice `s[a..b]` of the input with only whitespace before `a` and after `b`, and with no whitespace at either end; an already trimmed string stays as it is |
| Names.ReplaceSpaces | data-cleaner.py:64 | no plain space is left and every other character stays in place |
| Names.Normalize | data-cleaner.py:61-65 | the label chain in the code's order; a normalised label is no longer than the original, has no plain space, and holds only word characters and whitespace |
| Names.StripKeepsOnlyPlainSpaces | data-cleaner.py:62 | stripping a label whose only whitespace is the plain space brings in no other whitespace |
| Names.NormalizeReachesNormalForm | data-cleaner.py:61-65 | for such a label the chain yields word characters only, none of them upper case |
| Names.NormalizeFixesNormalForm | data-cleaner.py:61-65 | the chain leaves a label in that normal form as it is |
| Names.NormalizeIdempotent | data-cleaner.py:61-65 | running the chain twice gives what running it once gives, for labels whose only whitespace is the plain space |
| Names.NormalizeKeepsOtherWhitespace | data-cleaner.py:61-65 | whitespace other than the space survives the chain, and can end up last (`"a\t!"` gives `"a\t"`) |
| Names.NormalizeStripsExposedWhitespace | data-cleaner.py:61-65 | a second run strips that whitespace (`"a\t"` gives `"a"`) |
| Names.NormalizeNotIdempotent | data-cleaner.py:61-65 | so the chain is not idempotent on every label |
| Names.TemporalNameIgnoresCase | data-cleaner.py:197 | the date-name test gives the same answer for a label and its lower-cased form |
| Names.TemporalNameAt | data-cleaner.py:197 | a label holding `date` or `fecha` in any case at some position is date-named |
| Standardize.StrippedCell | data-cleaner.py:70 | an `object` cell becomes trimmed text: text is stripped, a number is its rendering stripped, a missing cell the text `nan`, and already trimmed text stays |
| Standardize.NormalizedNames | data-cleaner.py:61-65 | the new labels keep the number and order of the columns; each is the chain applied to its old label, holds no plain space and only `\w` or whitespace characters, and is no longer than the old label |
| Standardize.Standardized | data-cleaner.py:55-73 | the table after the stage is well formed |
| Standardize.StandardizeStep | data-cleaner.py:69-70 | one step of the cell loop strips column `j` exactly when it is an `object` column |
| Standardize.StandardizeRenames | data-cleaner.py:61-65 | each new label is the chain applied to the old one, with no space and only word characters and whitespace |
| Standardize.StandardizeCells | data-cleaner.py:68-70 | without a collision, every object cell becomes trimmed text: text is stripped, a number is its rendering stripped, a missing cell is `nan`, already trimmed text stays; other columns, dtypes and row count do not change |
| Standardize.StandardizedCell | data-cleaner.py:68-70 | a cell is stripped when it is in an object column before the stop column, and unchanged otherwise |
| Standardize.StandardizeRaisesOnCollision | data-cleaner.py:69-70 | a raise happens at an object column whose new label another column also gets |
| Standardize.StandardizeTouchesOnlyObjectColumns | data-cleaner.py:68-70 | columns that are not `object`, and every column from the stop column on, are untouched |
| Standardize.NormalizedNamesIdempotent | data-cleaner.py:61-65 | renaming twice gives the same labels as renaming once, for labels whose only whitespace is the plain space |
| Standardize.StandardizeIdempotent | data-cleaner.py:55-73 | for such labels a second run changes neither labels nor cells, and ends the same way |
| Garbage.GarbageRemoved | data-cleaner.py:80-82 | labels and dtypes are unchanged and the table stays well formed |
| Garbage.GarbageRemovedRows | data-cleaner.py:81-82 | no two rows left are equal, none is all-missing, there are no more rows than before, and a row is left exactly when it was there and has a present cell |
| Garbage.GarbageRemovedKeepsOrder | data-cleaner.py:81-82 | the rows left keep the order of their first occurrence |
| Garbage.GarbageOrderOfStepsIrrelevant | data-cleaner.py:81-82 | dropping the empty rows first gives the same rows |
| Garbage.GarbageRemovedIdempotent | data-cleaner.py:75-89 | a second run removes nothing |
| Seqs.Dedup | data-cleaner.py:81 | `drop_duplicates` keeps pairwise distinct rows, exactly the rows of the input |
| Seqs.DedupKeepsFirstOccurrenceOrder | data-cleaner.py:81 | the kept rows are in the order of their first occurrence |
| Seqs.Filter | data-cleaner.py:82 | a boolean selection keeps exactly the elements satisfying the predicate, each as often as it occurs in the input |
| Seqs.FilterKeepsPositionOrder | data-cleaner.py:82 | a selection keeps the relative order of what it keeps |
| Seqs.FilterDedupCommute | data-cleaner.py:81-82 | removing duplicates and selecting commute |
| Seqs.FilterKeepsDistinct | data-cleaner.py:81-82 | selecting from distinct rows leaves distinct rows |
| Seqs.DedupOfDistinct | data-cleaner.py:81 | `drop_duplicates` leaves rows that are already distinct as they are |
| Seqs.Select | data-cleaner.py:154 | `df[mask]` keeps as many rows as the mask has `True` entries |
| Seqs.SelectIsFilter | data-cleaner.py:154 | `df[mask]` is the selection by the predicate the mask holds for each row |
| Seqs.CountTrue | data-cleaner.py:96-99 | a counter over a loop is 0 exactly when no flag is set |
| Seqs.CountTruePrefix | data-cleaner.py:98-99 | one more column adds one to the counter exactly when its flag is set |
| Table.FirstAmbiguous | data-cleaner.py:97-98 | the stop column is the first looked-up column whose label is shared, or the width when there is none |
| Table.MapColumn | data-cleaner.py:70 | `df[col] = f(df[col])` rewrites the cells of that column and no other |
| Table.MapColumnsBelow | data-cleaner.py:69-70 | the table once a column loop reaches a column: the columns before it rewritten, the rest as loaded |
| Table.Present | data-cleaner.py:106 | the present cells of a column, as `mode()` sees them: every present value, as often as it occurs, and nothing missing |
| Table.Numbers | data-cleaner.py:102 | the numbers of a column are exactly the values of its `Num` cells, each as often as it occurs |
| Impute.FillValue | data-cleaner.py:100-108 | a fill value is a present value, and outside number columns one of the column's own |
| Impute.FillValueFacts | data-cleaner.py:100-108 | there is no fill value exactly when the column has no number (number dtype) or no present cell (other dtypes) |
| Impute.Imputed | data-cleaner.py:91-108 | the imputed table is well formed |
| Impute.ImputeStep | data-cleaner.py:97-108 | one step of the column loop finds the column as loaded, counts it exactly when it has a missing cell, and fills it then when there is a fill value |
| Impute.ImputeKeepsPresentCells | data-cleaner.py:96-108 | labels, dtypes, row count and every present cell are unchanged, and so is every column from the stop column on |
| Impute.ImputedColumn | data-cleaner.py:100-108 | before the stop column, a column's cells are `fillna` with its fill value |
| Impute.ImputeFillsColumns | data-cleaner.py:100-108 | a column with a present value is left with no missing cell; an entirely missing column stays entirely missing |
| Impute.FillValueOfPresent | data-cleaner.py:100-108 | a column with a present cell has a fill value |
| Impute.FillValueOfMissing | data-cleaner.py:100-108 | an entirely missing column has none |
| Impute.ImputeFillValues | data-cleaner.py:100-108 | a filled cell holds the median of a number column, or the smallest most frequent present value of any other column |
| Impute.ImputedCountCountsColumns | data-cleaner.py:96-99 | without a raise, `imputed_count` is the number of columns with a missing cell, and is 0 exactly when no cell is missing |
| Impute.ImputeIdempotent | data-cleaner.py:91-108 | without a raise, a second run fills nothing and does not raise |
| Stats.Insert | data-cleaner.py:136 | inserting into sorted values keeps them sorted and adds exactly that value |
| Stats.Sort | data-cleaner.py:136-137 | the sorted order the quantiles read from is sorted and a permutation of the values |
| Stats.SortedPermutationUnique | data-cleaner.py:136-137 | two sorted arrangements of the same values are equal, so the quartiles do not depend on the column's row order |
| Stats.Lerp | data-cleaner.py:136 | interpolation lies between its two end points |
| Stats.Interpolate | data-cleaner.py:136 | the interpolated value lies between the order statistics around its position |
| Stats.QuantilePosition | data-cleaner.py:136 | the position of a quantile lies within the sorted values |
| Stats.Quantile | data-cleaner.py:136-137 | a quantile lies between the least and the greatest value |
| Stats.QuantileMonotone | data-cleaner.py:136-137 | a larger fraction gives a quantile at least as large, so Q1 <= Q3 |
| Stats.QuantileAt | data-cleaner.py:136-137 | a quantile whose position has integer part `k` and fraction `f` is the linear interpolation between the `k`-th and `k+1`-th values |
| Stats.MedianIsHalfQuantile | data-cleaner.py:102 | the median is the 0.5-quantile |
| Stats.MedianSplitsInHalves | data-cleaner.py:102 | at least half of the values lie at or below the median, and at least half at or above it |
| Stats.MiddleSplitsInHalves | data-cleaner.py:102 | the same for the middle of sorted values |
| Stats.Median | data-cleaner.py:102 | the median lies between two values of the column |
| Stats.StringLeTotal | data-cleaner.py:106 | the text order of the mode's tie-break is total |
| Stats.StringLeAntisymmetric | data-cleaner.py:106 | and antisymmetric |
| Stats.StringLeTransitive | data-cleaner.py:106 | and transitive |
| Stats.CellLeTotal | data-cleaner.py:106 | the cell order of the mode's tie-break is total |
| Stats.CellLeAntisymmetric | data-cleaner.py:106 | and antisymmetric |
| Stats.CellLeTransitive | data-cleaner.py:106 | and transitive |
| Stats.MostFrequent | data-cleaner.py:106 | the chosen value is one of the candidates |
| Stats.MostFrequentIsBest | data-cleaner.py:106 | no candidate is more frequent, and an equally frequent one is not smaller |
| Stats.Mode | data-cleaner.py:106-107 | `mode()` is empty exactly when there is no present value, and otherwise returns one of them |
| Stats.ModeIsSmallestMostFrequent | data-cleaner.py:106-108 | `mode()[0]` is exactly the smallest most frequent present value |
| Stats.IqrBounds | data-cleaner.py:136-143 | a column is skipped exactly when it has no number or Q1 = Q3 |
| Stats.IqrBoundsEncloseQuartiles | data-cleaner.py:142-143 | with a non-negative multiplier, lower fence <= Q1 < Q3 <= upper fence |
| Outliers.Within | data-cleaner.py:146-150 | the 'remove' mask (within both fences, or missing) is exactly the negation of the 'cap' outlier test at line 173 |
| Outliers.CapCell | data-cleaner.py:176-177 | clipping leaves a missing cell as it is, and a value it changes becomes one of the fences |
| Outliers.Capped | data-cleaner.py:161-177 | the capped table is well formed |
| Outliers.CapStep | data-cleaner.py:163-177 | one step of the 'cap' loop finds the column as loaded and clips it exactly when it is a number column with fences and a value outside them |
| Outliers.CapColumnFacts | data-cleaner.py:164-173 | a column has an outlier exactly when it is a number column whose fences leave out one of its values |
| Outliers.CapStepRows | data-cleaner.py:173-177 | the rows after one more step of the 'cap' loop |
| Outliers.CapTwice | data-cleaner.py:176-177 | the two `np.where` steps on a column are one rewrite with `CapCell` |
| Outliers.CapCellWithin | data-cleaner.py:176-177 | a clipped value lies within its fences, a value within stays, and a value outside becomes the fence it crossed |
| Outliers.CapClipsToFences | data-cleaner.py:161-177 | 'cap' keeps labels, dtypes and row count; before the stop column every cell of a column with fences ends within them, values within and missing cells stay, values outside become the fence they crossed; every other cell stays |
| Outliers.CapClipsCell | data-cleaner.py:176-177 | the same, for one cell |
| Outliers.FencesOnlyOnNumberColumns | data-cleaner.py:129-143 | a column has fences exactly when it is a number column with a number and IQR != 0 |
| Outliers.CappedCountCountsColumns | data-cleaner.py:173-175 | without a raise, `outlier_cols` counts the columns with a value outside their fences, and is 0 exactly when no value is outside |
| Outliers.Removed | data-cleaner.py:154 | the table after 'remove' is well formed |
| Outliers.WithinBeforeStep | data-cleaner.py:146-152 | one more column narrows the mask by that column's fences |
| Outliers.WithinBeforeAll | data-cleaner.py:152 | the mask over every column is "within all fences" |
| Outliers.RemoveKeepsRowsWithinFences | data-cleaner.py:131-154 | without a raise, a row is kept exactly when its values lie within the fences computed on the table as loaded; every dropped row is outside some fence, and kept rows keep their order |
| Outliers.RemoveRaisesBeforeDropping | data-cleaner.py:133-154 | a raise in the mask loop drops no row |
| Outliers.OutliersHandled | data-cleaner.py:126-188 | the table after the stage, for any method, is well formed |
| Outliers.InvalidMethodRejected | data-cleaner.py:184-186 | a method other than 'cap' and 'remove' raises on a non-empty table and leaves it as it was |
| Outliers.AgesExample | data-cleaner.py:136-146 | the ages 25, 30, 25 and 120 with multiplier 1.5 have fences -16.25 and 93.75, and 120 alone lies outside |
| Optimize.ToDatetime | data-cleaner.py:199 | a converted cell holds no text, and is an instant exactly when it was present and the parser recognised it |
| Optimize.NUnique | data-cleaner.py:205 | `nunique()` is at most the row count, and 0 exactly when every cell is missing |
| Optimize.OptimizedKind | data-cleaner.py:204-206 | the dtype of a column changes only to `datetime64`, or from `object` to `category`, and only to `category` when the column was not converted and has few distinct values |
| Optimize.NUniqueCountsValues | data-cleaner.py:205 | `nunique()` is the number of distinct present values |
| Optimize.OptimizedKindsStep | data-cleaner.py:204-206 | one more step of the loop settles the dtype of that column |
| Optimize.OptimizeStep | data-cleaner.py:197-201 | one step of the loop finds the column as loaded and converts it exactly when its label mentions a date and parsing does not raise |
| Optimize.Optimized | data-cleaner.py:195-206 | the optimized table is well formed |
| Optimize.OptimizeKeepsLabelsAndValues | data-cleaner.py:195-206 | labels, row count and the cells of every column that is not converted are unchanged, and so is everything from the stop column on |
| Optimize.OptimizeConvertsDates | data-cleaner.py:197-199 | a date-named column that parses becomes `datetime64`: missing stays missing, parsed cells become their instant, unparseable ones NaT |
| Optimize.OptimizeCategorizes | data-cleaner.py:204-206 | a column not converted becomes `category` exactly when it is `object` and `10 * distinct < rows`, or already was; no other dtype changes |
| Optimize.OptimizeRaisesOnSharedLabel | data-cleaner.py:195-204 | the stage raises exactly when two columns share a label, at the first of them |
| Optimize.OptimizeColumnStable | data-cleaner.py:195-206 | a column of a finished run goes through a second run unchanged |
| Optimize.OptimizeIdempotent | data-cleaner.py:190-209 | without a raise, a second run changes nothing |

## Left out

- `_ingest` (reading CSV, Excel, JSON, Parquet or SQL) is not part of this model. The constructor takes the table it would have loaded. An empty table stands for a failed load.
- `export` and the `__main__` demonstration are not part of this model.
- Logging is left out. The counts it reports (`removed`, `imputed_count`, `outlier_cols`) are method results.
- Returning `self` for chaining is left out. The stage methods return the stage's status and counts instead.
- A raised exception is a returned `Status`. `df` holds what the stage had written before it raised, as in the code.
- The column loops work on the table as a value, which the class methods store in `df`. In-place update of one column is modelled as building the next table value. Aliasing of `self.df` with other references is not modelled.
- IEEE floating point and NaN are not modelled. Numbers are exact reals and NaN/None/NaT is the `Missing` cell. A column whose values are all missing has NaN quartiles, and every comparison with them fails. This is modelled as "no fences", which has the same effect.
- The dtypes a stage gives to the columns it rewrites are not tracked: `fillna` and `np.where` turning an integer column into a float column. Boolean columns are not modelled.
- Python's `str()` of a float, used by `astype(str)`, is a parameter `render` of the standardize stage.
- `Standardize.StrippedCell`: NaN and `None` are the one `Missing` cell, rendered `"nan"`. `astype(str)` renders a `None` cell, which a SQL load can produce, as `"None"`; that case is not modelled.
- `Standardize.StrippedCell`: integers and floats are the one `Num(real)` cell, so `render` cannot tell `str(5)` (`"5"`) from `str(5.0)` (`"5.0"`) in an `object` column.
- The date parser behind `pd.to_datetime(errors='coerce')` is a parameter `parse` of the optimize stage.
  - It maps a present cell to an instant, to "unrecognised" (which becomes NaT) or to an error.
  - An error is the exception that the stage catches, which leaves the column as it was.
- `\w`, `str.lower()` and upper case are exact on U+0000..U+00FF. Characters above U+00FF count as neither word characters nor upper case. `str.isspace` is exact for all characters.
- Column labels are strings. Non-string labels, which `.str` turns into NaN, are not modelled.
- `Stats.Mode`: the tie-break order of `mode()` puts numbers before text. For an object column mixing numbers and text, pandas' own order is not modelled.
- The categorisation test `nunique() / len(df) < 0.1` is modelled as `10 * nunique < rows` on exact integers. Float rounding of the quotient is not modelled.
- `Names.NormalizeIdempotent` and `Standardize.StandardizeIdempotent` are stated only for labels whose only whitespace is the plain space. The chain is not idempotent on other labels (`Names.NormalizeNotIdempotent`).
- `Optimize.OptimizeIdempotent` and `Optimize.OptimizeColumnStable` assume that the parser reads a timestamp back as the same instant.
- `Outliers.CapClipsToFences` assumes `threshold >= 0`. With a negative multiplier the fences can cross, and the code's two `np.where` steps then leave values at the upper fence.
- `Outliers.AgesExample` covers the fences of the example ages. That clipping then caps 120 to 93.75 and leaves four rows follows from `Outliers.CapClipsToFences`. That 'remove' then keeps three rows follows from `Outliers.RemoveKeepsRowsWithinFences`. Neither is restated for that table.
