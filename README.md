# Factor analysis of the Moroccan stock market: selection and reporting rules

This project models, over exact real numbers, the bookkeeping that surrounds
two library computations in the study's Python code. Dafny proves the
properties listed below.

- **Principal component analysis** (`python/pca_analysis.py`, class
  `AnalyseACP`): the state the analysis object keeps, and the tables and
  decisions it derives from a fitted model:
  - the eigenvalue table, with per-component and cumulative percentages
    under the names `CP1..CPm`;
  - the loadings `l_jk = v_jk * sqrt(lambda_k)` and the communalities;
  - the Kaiser rule (`lambda > 1`);
  - the cumulative-variance threshold rule;
  - the dominant-variable reading of the first five components.

  The eigen-decomposition is not modelled. The fitted model is a value
  (`PcaAnalysis.FittedPca`) holding:
  - the eigenvalues, descending and non-negative;
  - the variance ratios;
  - the component vectors;
  - the non-negative square roots of the eigenvalues.
- **Tertile discretisation** (`python/data_preparation.py`,
  `discretiser_acm`):
  - each numeric column is cut at its own 0.3333 and 0.6667 quantiles into
    Faible / Moyen / Élevé;
  - the quantile is pandas' default linear interpolation, written out over
    an insertion-sorted copy of the column;
  - the output table has the date column first, then one `<col>_cat`
    column per numeric column.
- **Strong correlations** (`main`): the nested loop that lists the pairs of
  variables whose correlation exceeds 0.5 in absolute value.

Modules:
- `Wrappers` holds `Option`.
- `Numerics` holds sums, running sums and absolute value.
- `Labels` holds the `CP<k>` names and their decimal round trip.
- `PcaAnalysis` covers `python/pca_analysis.py`. Its class `AnalyseAcp`
  updates its `resultats` map as the Python object does.
- `DataPreparation` covers `python/data_preparation.py`.

Where the code differs from its own docstrings, the model follows the
code: `seuil_variance` answers 1, not the number of components, when no
prefix of the ratios reaches the threshold.

`communalites` and `interpreter` call `loadings` first, so they also
overwrite the stored loadings table. The model states that overwrite in
their contracts.

The defaults of the Python signatures are kept:
- `n_composantes=None` is the constructor's default `None`;
- `seuil=0.80` is `SeuilVariance`'s default `0.8`;
- `n_top=5` is `Interpreter`'s default `5`.

## Model

| member | source | states |
|---|---|---|
| Labels.ComponentLabel | python/pca_analysis.py:80 | the name of component k is `CP` followed by the decimal digits of k+1, with no leading zero |
| Labels.NatToStringRoundTrip | python/pca_analysis.py:80 | the decimal digits written after `CP` read back as the same number |
| Labels.ComponentLabelRoundTrip | python/pca_analysis.py:80 | the name `CP{k+1}` of component k decodes back to position k |
| Labels.ComponentLabelInjective | python/pca_analysis.py:101 | two components with the same name are the same component, so no table has two columns named alike |
| Labels.ComponentLabels | python/pca_analysis.py:120 | an m-component table has exactly m column names, the k-th being `CP{k+1}` |
| Labels.LabelPrefixStep | python/pca_analysis.py:163 | the names of the first i+1 components are those of the first i plus one name not among them |
| Labels.KeyedByComponentFacts | python/pca_analysis.py:163-169 | a dictionary filled for the first i components under their names has exactly the keys `CP1..CPi`, and each key holds its own component's entry |
| Numerics.Cumsum | python/pca_analysis.py:98 | `np.cumsum`: one entry per term, entry k being the sum of the first k+1 terms |
| Numerics.CumsumRecurrence | python/pca_analysis.py:98 | the first running total is the first term; each later total is the previous one plus its term |
| Numerics.CumsumNonDecreasing | python/pca_analysis.py:98 | with non-negative terms the running totals never decrease |
| Numerics.PrefixSumMonotone | python/pca_analysis.py:153 | with non-negative terms a longer prefix never sums to less |
| Numerics.SumOfRatios | python/pca_analysis.py:93-94 | terms that are other terms divided by a total sum to their sum divided by that total |
| PcaAnalysis.EigenvalueTable | python/pca_analysis.py:96-105 | one row per component in order: name `CP{k+1}`, eigenvalue lambda_k, percentage tau_k*100, cumulative percentage 100 times the sum of tau_0..tau_k |
| PcaAnalysis.CumulativeRecurrence | python/pca_analysis.py:98-104 | Cumul_pct[0] = Variance_pct[0] and Cumul_pct[k] = Cumul_pct[k-1] + Variance_pct[k] |
| PcaAnalysis.CumulativeNonDecreasing | python/pca_analysis.py:98-104 | with non-negative ratios the cumulative column never decreases |
| PcaAnalysis.RatiosSumToOne | python/pca_analysis.py:93-94 | ratios equal to lambda_k over the sum of all eigenvalues sum to 1 |
| PcaAnalysis.LastCumulativeIsHundred | python/pca_analysis.py:93-104 | with every component kept, the last cumulative percentage is exactly 100 |
| PcaAnalysis.KaiserCount | python/pca_analysis.py:147 | counts eigenvalues, so it never exceeds the number of components |
| PcaAnalysis.KaiserCountCardinality | python/pca_analysis.py:147 | the Kaiser count equals the number of positions whose eigenvalue is strictly above 1 (an eigenvalue equal to 1 is not counted) |
| PcaAnalysis.KaiserCountIsPrefix | python/pca_analysis.py:145-147 | on descending eigenvalues, component k is counted exactly when k is below the count, so the retained components are the leading ones |
| PcaAnalysis.ArgMaxBool | python/pca_analysis.py:154 | `np.argmax` of a boolean vector: the first True position, or 0 when all entries are False |
| PcaAnalysis.VarianceThreshold | python/pca_analysis.py:151-156 | 1 <= n <= m; if some prefix reaches `seuil`, n is the least K whose first K ratios sum to at least `seuil` (every shorter prefix falls short); if none does, n = 1 |
| PcaAnalysis.ThresholdReachedWhenAllKept | python/pca_analysis.py:151-156 | with every component kept and `seuil` <= 1 the threshold is always reached: the first n ratios reach it and no shorter prefix does |
| PcaAnalysis.LoadingMatrix | python/pca_analysis.py:119 | one row per variable and one column per component, with L[j][k] = V[k][j] * sqrt(lambda_k) |
| PcaAnalysis.LoadingSquare | python/pca_analysis.py:114-119 | a loading squared is the eigenvector entry squared times the eigenvalue, and it has the sign of that entry |
| PcaAnalysis.SquaresUpTo | python/pca_analysis.py:136 | the sum of the squares of a row's first K loadings is never negative |
| PcaAnalysis.Communalities | python/pca_analysis.py:136 | one communality per variable, and none is negative |
| PcaAnalysis.CommunalityFromEigenvalues | python/pca_analysis.py:130-136 | the communality of variable j, the sum of its squared loadings, equals the sum over components of lambda_k * V[k][j]^2 |
| PcaAnalysis.WeightedPrefix | python/pca_analysis.py:136 | over any first K components, the squared loadings of a variable and the eigenvalue-weighted squared entries have the same sum |
| PcaAnalysis.HeadCount | python/pca_analysis.py:165 | `head(n)` keeps min(n, len) rows for n >= 0, and drops the last \|n\| rows for negative n |
| PcaAnalysis.MaxAbsPos | python/pca_analysis.py:164 | picks a candidate whose absolute loading is at least that of every other candidate |
| PcaAnalysis.TopByAbs | python/pca_analysis.py:164-165 | min(count, #candidates) distinct candidates, in decreasing absolute value, none of them below a candidate left out |
| PcaAnalysis.ComponentReading | python/pca_analysis.py:163-169 | for component k: head-count many distinct variables, each with its own signed loading, in decreasing absolute loading, none below an unlisted variable; `variance_expliquee` = tau_k * 100 |
| PcaAnalysis.Readings | python/pca_analysis.py:163 | `L.columns[:5]`: min(5, m) readings, the k-th being the reading of component k |
| PcaAnalysis.Interpret | python/pca_analysis.py:162-170 | the loop leaves the dictionary holding, under `CP{k+1}`, the reading of component k, for each of the first min(5, m) components in turn |
| PcaAnalysis.InterpretationKeyed | python/pca_analysis.py:162-170 | that dictionary's keys are exactly `CP1..CPmin(5,m)`, and each maps to its own component's reading |
| PcaAnalysis.AnalyseAcp.constructor | python/pca_analysis.py:62-66 | keeps the requested component count, `None` by default; no model, no names, empty results |
| PcaAnalysis.AnalyseAcp.Ajuster | python/pca_analysis.py:69-75 | records the variable names and the fitted model; only those two fields change |
| PcaAnalysis.AnalyseAcp.Transformer | python/pca_analysis.py:77-81 | the scores unchanged, under the columns `CP1..CPm` |
| PcaAnalysis.AnalyseAcp.AjusterTransformer | python/pca_analysis.py:83-86 | fits, then returns the scores under `CP1..CPm` |
| PcaAnalysis.AnalyseAcp.ValeursPropres | python/pca_analysis.py:89-107 | returns the eigenvalue table and stores it under "valeurs_propres", every other key unchanged |
| PcaAnalysis.AnalyseAcp.Loadings | python/pca_analysis.py:110-123 | returns the loadings indexed by the variable names with columns `CP1..CPm`, and stores it under "loadings", every other key unchanged |
| PcaAnalysis.AnalyseAcp.Communalites | python/pca_analysis.py:126-142 | one row per variable in order, holding its communality (the sum of its squared loadings), which equals the sum over components of lambda_k * V[k][j]^2; stores the loadings and then the communalities, every other key unchanged |
| PcaAnalysis.AnalyseAcp.CritereKaiser | python/pca_analysis.py:145-149 | the number of eigenvalues strictly above 1, which are exactly the leading n components; no state changes |
| PcaAnalysis.AnalyseAcp.SeuilVariance | python/pca_analysis.py:151-156 | the threshold rule on the fitted ratios, with `seuil` 0.8 by default; no state changes |
| PcaAnalysis.AnalyseAcp.Interpreter | python/pca_analysis.py:159-170 | stores the loadings (every other key unchanged) and returns, under `CP1..CPmin(5,m)`, each component's reading; `n_top` is 5 by default, so each reading lists min(5, p) variables |
| DataPreparation.Conditions | python/data_preparation.py:172-176 | one condition per label choice |
| DataPreparation.ChoicesWrittenAsLabelTexts | python/data_preparation.py:161-177 | each label choice is written as the text at its own position in `["Faible", "Moyen", "Élevé"]`, and no two labels are written alike |
| DataPreparation.Select | python/data_preparation.py:177 | `np.select`: the choice of a condition that holds when none before it holds; the default when no condition holds |
| DataPreparation.SelectOfThree | python/data_preparation.py:177 | `np.select` over three conditions takes the choice of the first that holds, else the default |
| DataPreparation.Classify | python/data_preparation.py:172-177 | Faible iff x <= q33; Moyen iff q33 < x <= q67; Élevé iff x exceeds both thresholds |
| DataPreparation.ExactlyOneCondition | python/data_preparation.py:172-176 | when q33 <= q67, every value meets exactly one of the three conditions |
| DataPreparation.DefaultNeverTaken | python/data_preparation.py:177 | for any thresholds some condition holds, so the `default="Moyen"` branch never decides a label |
| DataPreparation.BoundariesLowerInclusive | python/data_preparation.py:148-150 | x = q33 is always Faible; x = q67 is Moyen when q33 < q67, and Faible when the thresholds coincide |
| DataPreparation.ClassifyMonotone | python/data_preparation.py:172-177 | x <= y implies rank(label(x)) <= rank(label(y)), with Faible < Moyen < Élevé |
| DataPreparation.SortAscending | python/data_preparation.py:168-169 | the column's values in ascending order, as the same multiset |
| DataPreparation.InsertSorted | python/data_preparation.py:168-169 | inserting a value into a sorted column keeps it sorted |
| DataPreparation.SortAscendingSorted | python/data_preparation.py:168-169 | a column already in order is left as it is |
| DataPreparation.Interpolate | python/data_preparation.py:168-169 | the value at fractional rank pos lies between the values at the two ranks around pos |
| DataPreparation.InterpolateMonotone | python/data_preparation.py:168-169 | a higher rank never interpolates to a lower value |
| DataPreparation.QuantileSorted | python/data_preparation.py:168-169 | the linear-interpolation quantile lies between the column's minimum and maximum |
| DataPreparation.QuantileMonotone | python/data_preparation.py:168-169 | a higher order never gives a lower quantile |
| DataPreparation.QuantileBetween | python/data_preparation.py:168-169 | when the quantile's position falls inside the column, the quantile interpolates linearly between the values at the two ranks around it |
| DataPreparation.Thresholds | python/data_preparation.py:168-169 | the two tertile thresholds of a non-empty column satisfy q33 <= q67 |
| DataPreparation.ClassifyColumn | python/data_preparation.py:166-177 | one label per value of the column |
| DataPreparation.ClassifyColumnByThresholds | python/data_preparation.py:166-177 | each label is the rule applied with the thresholds of that column alone, so no other column affects it |
| DataPreparation.ClassifyColumnOrderPreserving | python/data_preparation.py:172-177 | within a column, a larger value never gets a lower category |
| DataPreparation.SmallestIsFaible | python/data_preparation.py:173 | the smallest value of a column is always labelled Faible |
| DataPreparation.NineValuesThresholds | python/data_preparation.py:168-169 | the tertiles of 1..9 are 3.6664 and 6.3336 |
| DataPreparation.NineValuesSplitEvenly | python/data_preparation.py:145-152 | of 1..9, the values 1-3 are Faible, 4-6 Moyen and 7-9 Élevé |
| DataPreparation.NumericPositions | python/data_preparation.py:160 | positions of numeric columns only, strictly increasing |
| DataPreparation.NumericPositionsComplete | python/data_preparation.py:160 | no numeric column's position is skipped |
| DataPreparation.NumericColumns | python/data_preparation.py:160 | numeric columns only |
| DataPreparation.NumericColumnsAt | python/data_preparation.py:160 | the k-th numeric column is the table's column at the k-th numeric position, so the table's order is kept |
| DataPreparation.NumericColumnsExact | python/data_preparation.py:160 | a column is listed iff it is a numeric column of the table |
| DataPreparation.NumericColumnsRows | python/data_preparation.py:160 | in a table whose columns all have the same length, every numeric column has that length |
| DataPreparation.NumericColumnsDistinct | python/data_preparation.py:160 | when neither "Date" nor a numeric column's name names two columns, the numeric columns have distinct names |
| DataPreparation.DateIndex | python/data_preparation.py:164 | the position of the column named "Date", or none when no column has that name |
| DataPreparation.CategoryName | python/data_preparation.py:177 | the output name is the input name followed by `_cat` |
| DataPreparation.CategoryNameDistinct | python/data_preparation.py:177 | different numeric column names give different output names |
| DataPreparation.Discretise | python/data_preparation.py:166-177 | the output column of a numeric column is named `<col>_cat` and has the same row count |
| DataPreparation.Discretised | python/data_preparation.py:166-177 | one output column per numeric column, in order, the k-th being the labelled k-th column |
| DataPreparation.Layout | python/data_preparation.py:160-177 | the built table: the date column first, then at position k+1 the labelled k-th numeric column, and nothing else |
| DataPreparation.LayoutInTableOrder | python/data_preparation.py:160-177 | column k+1 of the built table is the labelled column at the k-th numeric position of the input, and those positions increase |
| DataPreparation.LayoutRows | python/data_preparation.py:163-177 | in a table whose columns all have the same length, every built column has one row per input row |
| DataPreparation.LayoutName | python/data_preparation.py:164-177 | the built columns are named "Date", then `<col>_cat` for each numeric column in turn |
| DataPreparation.LayoutNamesDistinct | python/data_preparation.py:163-177 | when neither "Date" nor a numeric column's name names two columns, no two built columns share a name |
| DataPreparation.DiscretiserAcm | python/data_preparation.py:160-177 | fails exactly when there is no "Date" column, or when "Date" or a numeric column's name names two columns (the lookups at :164 and :168-177 then yield two columns); otherwise the columns it builds one by one are the layout above: the date column first, then at position k+1 the labelled column at the k-th numeric position of the input, so in input order, all under distinct names |
| DataPreparation.StrongCorrelations | python/data_preparation.py:221-227 | every reported pair has i < j (never the diagonal), its own correlation, and \|r\| > 0.5; a pair i < j is reported iff \|r\| > 0.5; pairs come in strictly increasing (i, j) order, so each appears once |

## Left out

- **The sklearn fit and projection** (`PCA.fit`, `PCA.transform`) are
  floating-point linear algebra in a library. The fit's outputs are the
  inputs `FittedPca`, and the projected scores are an input of
  `Transformer`.
- **Square roots.** `sqrt(lambda_k)` is taken as an input `s` with
  `s >= 0` and `s * s == lambda_k`, since there is no square root over
  `real`.
- **Rounding.** `np.round` of the output tables is not modelled; every
  value is unrounded.
- **Sort order among ties.** pandas' `sort_values` is not a stable sort.
  Among loadings of equal absolute value the model lists the earlier
  variable first. Every contract about the reading holds for any order
  among ties.
- **Dominant variables as a dictionary.** `to_dict()` yields a dictionary
  keyed by variable name. The model keeps the list of (name, loading) pairs
  in selection order instead. Its names are distinct, so it determines
  that dictionary.
- PcaAnalysis.AnalyseAcp.Ajuster takes a fit with 1 <= m <= p
  components for p variables, and m equal to the requested count when
  one was given. This is the model's own assumption. `ajuster` passes
  `n_composantes` to sklearn unchecked (python/pca_analysis.py:63, :72),
  and the validation of `n_components` is not part of this model. So after
  a request of 0 components, or of more components than variables,
  `Ajuster` cannot be called.
- PcaAnalysis.AnalyseAcp.Ajuster also takes distinct variable names.
  `ajuster` copies the column names unchecked (python/pca_analysis.py:71).
  With repeated names, the dictionary built by `interpreter` would merge
  entries; that case is not modelled.
- PcaAnalysis.AnalyseAcp.Fitted is what the methods below require: a
  model fitted over distinct variable names. The pipeline
  (python/pca_analysis.py:370-392) always fits on the data frame's own
  columns before any of them.
- PcaAnalysis.AnalyseAcp.Transformer is modelled only after a fit. Called
  before `ajuster`, `self.pca` is None and the source raises
  AttributeError (python/pca_analysis.py:79); that error path is not
  modelled.
- PcaAnalysis.AnalyseAcp.ValeursPropres is modelled only after a fit; the
  AttributeError before one (python/pca_analysis.py:96) is not modelled.
- PcaAnalysis.AnalyseAcp.Loadings is modelled only after a fit; the
  AttributeError before one (python/pca_analysis.py:119) is not modelled.
- PcaAnalysis.AnalyseAcp.Communalites is modelled only after a fit; it
  fails through `loadings` before one (python/pca_analysis.py:135), which
  is not modelled.
- PcaAnalysis.AnalyseAcp.CritereKaiser is modelled only after a fit; the
  AttributeError before one (python/pca_analysis.py:147) is not modelled.
- PcaAnalysis.AnalyseAcp.SeuilVariance is modelled only after a fit; the
  AttributeError before one (python/pca_analysis.py:153) is not modelled.
- PcaAnalysis.AnalyseAcp.Interpreter is modelled only after a fit; it
  fails through `loadings` before one (python/pca_analysis.py:161), which
  is not modelled.
- **Other parts of the two files:**
  - `standardiser_acp` delegates to sklearn's scaler.
  - `statistiques_descriptives`, `matrice_correlation` and the
    coefficient of variation are pandas numerics.
  - The correlation matrix is an input of `StrongCorrelations`.
- **I/O and display:**
  - Loading and saving: `charger_donnees`, `sauvegarder`, `executer_acp`,
    the CSV writes.
  - Quality report: `verifier_qualite`.
  - Plots: `graphique_eboulis`, `cercle_correlations`, `biplot_acp`,
    `heatmap_loadings`, `heatmap_correlation`.
  - Every printed message, including the category counts printed after
    discretisation.
- **python/data_generator.py** (seeded random synthetic data) is not part
  of this model.
- **Decimal constants and missing values.** The quantile orders
  0.3333 and 0.6667 and the 0.5 correlation bound are exact decimals, not
  binary floating point. NaN values are not modelled: they compare False
  and fall to `default="Moyen"`, which is IEEE behaviour with no
  counterpart over `real`.
- **Absent components.** The correspondence analysis of the categorical
  table and any cross-check of eigenvalues between backends are not in
  these files, so they are not part of this model.
- DataPreparation.LayoutRows is proved only for a table whose columns
  all have the same row count, as in a data frame.
- DataPreparation.LayoutNamesDistinct is proved only for a table in which
  neither "Date" nor a numeric column's name names two columns. On any
  other table `DiscretiserAcm` fails, as the source does, so every table
  it returns has distinct column names.
- DataPreparation.DiscretiserAcm models the failure on a repeated
  "Date" or numeric name as a failure (`None`), without telling a
  missing column apart from a repeated one; the distinct pandas
  exceptions (KeyError, ValueError) are not modelled.
- **DataPreparation.StrongCorrelations** reports pairs by position and
  correlation. The printed names `num_cols[i]` and `num_cols[j]` are the
  names at those positions.
