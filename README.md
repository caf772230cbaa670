# The Titanic cleaning pipeline in Dafny

This project models `clean_data` from `titanic_data_cleaning.py`, the function
that turns the raw Titanic passenger frame into a frame ready for training.
It runs six steps in a fixed order:

1. Fill the missing ages with the median age.
   Fill the missing ports of embarkation with the most frequent port.
2. Drop the identifier and free-text columns `Cabin`, `PassengerId`, `Name` and `Ticket`.
3. Encode `Sex` as 0 for `male` and 1 for `female`.
4. Replace `Embarked` by one `Emb_<port>` indicator column per port, leaving
   out the first port in sorted order (`drop_first`).
5. Standardise `Age` and `Fare` when both exist.
6. Keep only the rows whose fare lies inside the interquartile fences.

A frame is a `Tables.Table`: a sequence of labelled columns of cells,
together with a row count. A cell is `Missing` (pandas `NaN`), `Num(real)` or
`Str(string)`. `Valid()` says that every column has one cell per row and
that no label occurs twice. Numbers are Dafny `real`s, so every arithmetic
step is exact.

The model has six modules, one file each:

| module | file | contents |
|---|---|---|
| `Tables` | `tables.dfy` | Frames, column access, `df[name] = cells` (`Put`), column concatenation (`Extend`), row selection (`SelectRows`). |
| `Ordering` | `ordering.dfy` | Python's string order, the sorted distinct values of a column, and sorting of numbers. |
| `Stats` | `stats.dfy` | The statistics pandas uses: median, mode, linear-interpolation quantiles. Also the mean and population variance that `StandardScaler` fits, with the proof that scaling gives mean 0 and variance 1. |
| `Cleaning` | `cleaning.dfy` | The six steps, each a function from frame to frame, with the lemmas about each step. |
| `Pipeline` | `pipeline.dfy` | The steps composed. There is one invariant per stage, which gives `Clean`, the whole of `clean_data`, and its end-to-end properties. |
| `Frames` | `frame.dfy` | The same pipeline as `clean_data` runs it on a mutable frame object. |

In `Frames`:

- Lines 29-30 overwrite two columns of the caller's frame, so the caller's frame ends up imputed.
- Lines 37 and 43 overwrite columns of the intermediate frames.
- `drop`, `get_dummies` and the row filter build new frames.

`Frames.CleanData` proves two things about the imperative version:

- the caller's frame is left equal to `ImputeEmbarked(ImputeAge(input))`;
- the frame returned is `Pipeline.Clean(input)`.

`clean_data` raises in these cases, so they are preconditions (`Pipeline.InputOk`):

- `Age`, `Sex` or `Embarked` is missing (lines 29, 30, 37 and 38 index them unguarded);
- `Embarked` has no value at all, because `mode()[0]` fails on an empty mode.

Dropping, scaling and filtering are guarded in the code (lines 34, 42 and 46).
The model handles both branches of each.

The median follows pandas, which the code calls: for an even count it is
the mean of the two middle values. The ages 22, 38, 26 and 35 therefore
have median 30.5 (`Stats.MedianOfFourAges`).

## Model

| member | source | states |
|---|---|---|
| `Tables.Table.Put` | titanic_data_cleaning.py:29-30 | `df[name] = cells` keeps the frame valid. The column is replaced where it stands, or appended when the label is new. Every other column is unchanged. |
| `Tables.Table.Extend` | titanic_data_cleaning.py:38 | Concatenating new columns keeps the old columns, their positions and their cells. The new columns follow in order, and no other label appears. |
| `Tables.SelectRows` | titanic_data_cleaning.py:50 | Boolean indexing keeps the labels. Row `j` of every column is row `k[j]` of the input. |
| `Tables.KeptComplete` | titanic_data_cleaning.py:50 | A row position is kept exactly when its mask entry is true. |
| `Tables.KeptIncreasing` | titanic_data_cleaning.py:50 | The kept positions are strictly increasing, so survivors keep their relative order. |
| `Ordering.StrLeTotalOrder` | titanic_data_cleaning.py:30 | Python's string comparison is a total order: reflexive, antisymmetric, transitive and total. |
| `Ordering.SortedDistinct` | titanic_data_cleaning.py:38 | The categories are strictly increasing, and they are exactly the values present. |
| `Ordering.SortReals` | titanic_data_cleaning.py:29 | Sorting gives an ascending permutation of the values. |
| `Stats.MiddleAt` | titanic_data_cleaning.py:29 | The median of `n` sorted values is the value at `n/2` for odd `n`. For even `n` it is the mean of the values at `n/2-1` and `n/2`. |
| `Stats.MedianIsHalfQuantile` | titanic_data_cleaning.py:29 | The median is the 0.5 linear-interpolation quantile of the sorted values. |
| `Stats.MedianBounds` | titanic_data_cleaning.py:29 | The median lies between the smallest and the largest present value. |
| `Stats.MedianOfFourAges` | titanic_data_cleaning.py:29 | The ages 22, 38, 26 and 35 have median 30.5. |
| `Stats.Mode` | titanic_data_cleaning.py:30 | `mode()[0]` is a present value of highest frequency. It is the smallest such value in string order. |
| `Stats.ModeUnique` | titanic_data_cleaning.py:30 | Only one value meets that description, so the fill value is determined. |
| `Stats.QuantileBounds` | titanic_data_cleaning.py:47-48 | A quantile lies between the smallest and the largest value. |
| `Stats.QuantileMonotone` | titanic_data_cleaning.py:47-49 | Quantiles are monotone in `q`, so Q1 <= Q3 and the IQR is non-negative. |
| `Stats.StandardisedMeanZero` | titanic_data_cleaning.py:43 | After `(v - mean) / s`, the values have mean 0. |
| `Stats.StandardisedUnitVariance` | titanic_data_cleaning.py:43 | When `s*s` is the (non-zero) population variance, the scaled values have variance 1. |
| `Cleaning.ImputeAge` | titanic_data_cleaning.py:29 | Present ages are unchanged. Every missing age becomes the median of the present ages, or stays missing when there are none. No age is missing if one was present. Every other column is unchanged. |
| `Cleaning.ImputeEmbarked` | titanic_data_cleaning.py:30 | Present ports are unchanged. Every missing port becomes the mode of the present ports, ties going to the smallest. Afterwards none is missing, and every other column is unchanged. |
| `Cleaning.ImputeKeepsCategories` | titanic_data_cleaning.py:30 | Filling with the mode leaves the set of categories unchanged. |
| `Cleaning.WithoutColumns` | titanic_data_cleaning.py:34 | Dropping removes exactly the listed labels that are present, and never fails on an absent one. It keeps the cells of the rest and their relative order. Nothing changes when no listed label is present. |
| `Cleaning.Prune` | titanic_data_cleaning.py:33-34 | A column survives exactly when it existed and is not one of `Cabin`, `PassengerId`, `Name` and `Ticket`. Its cells and column order are kept. |
| `Cleaning.PruneIdempotent` | titanic_data_cleaning.py:33-34 | Pruning twice is pruning once. |
| `Cleaning.EncodeSex` | titanic_data_cleaning.py:37 | A cell becomes 0 iff it was `male` and 1 iff it was `female`. It becomes missing iff it was anything else. Labels and every other column are unchanged. |
| `Cleaning.SexCodeRoundTrip` | titanic_data_cleaning.py:37 | On `male` and `female` the code can be decoded back to the original text. |
| `Cleaning.Categories` | titanic_data_cleaning.py:38 | The categories are strictly sorted, and they are exactly the texts present. |
| `Cleaning.DummiesLabelled` | titanic_data_cleaning.py:38 | There is one indicator column per category after the first, labelled `Emb_<v>` and holding that category's indicator. The labels are new and distinct. |
| `Cleaning.OneHot` | titanic_data_cleaning.py:38 | `Embarked` is gone. Every other column keeps its cells and relative order, among the first columns. `Emb_<v>` follows for each category after the first, and no other label appears. |
| `Cleaning.OneHotLabels` | titanic_data_cleaning.py:38 | A new column `Emb_<v>` exists iff `v` is a present value other than the smallest. |
| `Cleaning.OneHotIndicator` | titanic_data_cleaning.py:38 | Row `i` of `Emb_<v>` is 1 iff the row held `v`, and 0 iff it did not. |
| `Cleaning.AtMostOneIndicator` | titanic_data_cleaning.py:38 | At most one indicator is set in each row. |
| `Cleaning.AllZeroIffBaseline` | titanic_data_cleaning.py:38 | All indicators of a row are 0 iff the row held the first category or held no category. |
| `Cleaning.IndicatorsZero` | titanic_data_cleaning.py:38 | The same, stated on the `Embarked` cells and their indicator columns. |
| `Cleaning.ScaleColumn` | titanic_data_cleaning.py:43 | Scaling keeps the length and the kind (number, missing or text) of every cell. |
| `Cleaning.ScaleRoundTrip` | titanic_data_cleaning.py:43 | `v' * s + mean` gives back every original cell exactly. |
| `Cleaning.PresentScaled` | titanic_data_cleaning.py:43 | The numbers of a scaled column are the scaled numbers of the column. |
| `Cleaning.Standardise` | titanic_data_cleaning.py:41-43 | When either `Age` or `Fare` is absent, the frame is unchanged. Otherwise both columns are scaled with their own mean and scale, and labels, rows and every other column are kept. |
| `Cleaning.StandardiseRoundTrip` | titanic_data_cleaning.py:43 | Both scaled columns can be unscaled back to the originals, and missing cells stay missing. |
| `Cleaning.ScaledColumnMoments` | titanic_data_cleaning.py:41-43 | A scaled column has mean 0. It has variance 1 when the scale is the standard deviation. |
| `Cleaning.Fences` | titanic_data_cleaning.py:47-50 | The fences are `Q1 - 1.5 IQR` and `Q3 + 1.5 IQR`, and they bracket the quartiles. There are none when no fare is present. |
| `Cleaning.KeptRows` | titanic_data_cleaning.py:50 | Row `i` is kept iff its fare is a number inside the fences, bounds included. The kept rows are in increasing order. |
| `Cleaning.FilterOutliers` | titanic_data_cleaning.py:46-50 | Without `Fare` the frame is unchanged. With `Fare`, the survivors are the kept rows in order, with all their cells, so there are never more rows than before. |
| `Cleaning.InterquartileRowsKept` | titanic_data_cleaning.py:47-50 | Every row whose fare lies between Q1 and Q3 survives. |
| `Cleaning.MissingFareDropped` | titanic_data_cleaning.py:50 | A row with a missing fare never survives (a comparison with `NaN` is false). With no fare present, no row survives. |
| `Pipeline.ImputeStep` | titanic_data_cleaning.py:29-30 | After step 1, the labels are unchanged, only Age and Embarked differ, Age is imputed, and the categories are unchanged. |
| `Pipeline.PruneStep` | titanic_data_cleaning.py:33-34 | Step 2 keeps that invariant, with the dropped labels gone. |
| `Pipeline.SexStep` | titanic_data_cleaning.py:37 | After step 3, `Sex` holds the code of the input's `Sex` in every row. |
| `Pipeline.OneHotStep` | titanic_data_cleaning.py:38 | After step 4, `Embarked` is gone and the untouched columns are the input's. The labels the input lacks are exactly `Emb_<v>` for the categories after the first. |
| `Pipeline.ScaleStep` | titanic_data_cleaning.py:41-43 | Step 5 keeps the labels, the imputed Age, the Sex codes and the untouched columns, and `Fare` stays numeric. |
| `Pipeline.FilterStep` | titanic_data_cleaning.py:46-50 | Step 6 keeps the labels and never adds rows. |
| `Pipeline.Prepared` | titanic_data_cleaning.py:29-43 | Steps 1-5 preserve the row count and establish the stage invariant. |
| `Pipeline.Clean` | titanic_data_cleaning.py:24-52 | The output is valid and has at most as many rows as the input. `Embarked` and the dropped labels are gone, and `Age`, `Sex` and every untouched label remain. `Fare` remains iff it was there. The labels the input lacks are exactly `Emb_<v>` for the categories after the first. Without `Fare`, every row is kept. |
| `Pipeline.CleanKeepsRows` | titanic_data_cleaning.py:29-52 | The output rows are input rows in their original order, and every untouched column keeps its cells. |
| `Pipeline.CleanFilter` | titanic_data_cleaning.py:46-50 | With `Fare`, a row survives exactly when its scaled fare lies inside the fences. |
| `Pipeline.CleanWithoutFare` | titanic_data_cleaning.py:46 | Without `Fare`, no row is filtered. |
| `Frames.Frame.SetColumn` | titanic_data_cleaning.py:29-30 | The in-place column assignment leaves the frame holding `Put(name, cells)` of its old value. |
| `Frames.ImputeInPlace` | titanic_data_cleaning.py:29-30 | The caller's frame is imputed in place. |
| `Frames.EncodeSexInPlace` | titanic_data_cleaning.py:37 | The frame's `Sex` column is encoded in place. |
| `Frames.StandardiseInPlace` | titanic_data_cleaning.py:42-43 | The frame is standardised in place, when it has both columns. |
| `Frames.EncodedFrame` | titanic_data_cleaning.py:34-37 | The pruned frame is a new object, whose `Sex` column is then encoded. |
| `Frames.ScaledFrame` | titanic_data_cleaning.py:38-43 | The one-hot frame is a new object, which is then standardised. |
| `Frames.CleanData` | titanic_data_cleaning.py:24-52 | The caller's frame ends up imputed. The result is a new frame equal to `Pipeline.Clean` of the input. |

## Left out

- `load_data`, `save_data` and `main` (titanic_data_cleaning.py:14-22, 54-87) read and write CSV files, parse arguments and print. This is I/O.
- The scaler's scale: the model does not compute it. The two scales are positive parameters, so no square root is taken.
  - The scaler fits each scale as the population standard deviation. `Stats.StandardisedUnitVariance` shows that the scaled values then have variance 1.
  - When a standard deviation is zero, sklearn uses 1 as the scale. That case is the parameter value 1.0.
- Floating point: every value is an exact real. The round trip and the moments hold exactly here, but only approximately for doubles.
- pandas dtypes:
  - the indicators are the numbers 0 and 1, not booleans;
  - a column is all numbers or all texts (`Age` and `Fare` numeric, `Embarked` textual), with no object columns of mixed types.
- Duplicate labels: pandas allows them, but the model requires that no existing column carries a label step 4 would generate (`Cleaning.DummyLabelsFresh`).
- A column with no age at all: `median()` is `NaN` and `fillna` leaves the ages missing. The model does the same, so `Pipeline.AgeImputed` promises no missing age only when some age was present.
- `Cleaning.OneHot`: the indicator columns follow the code-point order of their categories. pandas' categorical dtypes with a declared order are not modelled.
- The row index: boolean indexing at line 50 keeps the input's index labels, and the model has no index. `Pipeline.CleanKeepsRows` gives the surviving rows' original positions, which are their labels under the default `RangeIndex` of a frame read from CSV.
