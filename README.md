# Correlation screening and backward elimination, in Dafny

`correlation_and_regression.py` reads a CSV of time series, with a date column,
the dependent series and then the predictors. It does four things with the data:

1. It lists the strongly correlated pairs of series.
2. It fits one ordinary-least-squares regression and drops the worst predictor once.
3. It runs a backward-elimination loop. The loop refits and drops the predictor with
   the largest p-value for as long as that p-value is above 5%.
4. It stores the surviving coefficients as a forecast model.

This project models the bookkeeping around the numerical library calls, and proves
what that bookkeeping guarantees:

- `correlation.dfy` (module `Correlation`): the pair filter. It is a pair of nested
  loops over the upper triangle of the correlation matrix. The matrix is an input.
- `elimination.dfy` (module `Elimination`): the parts that eliminate predictors.
  - The one-shot step and the loop body are one function of the state (`Step`).
  - The loop as written is `RunAsWritten`, with the imperative loop `EliminateAsWritten`.
  - The loop with a guard that agrees with its removal test is `RunCorrected`, with
    `EliminateCorrected`.
  - The least-squares fit is a parameter `ols`. It is a deterministic function from the
    dependent series and the predictor columns to the fitted `params` and `pvalues`.
    `WellShaped(ols)` fixes statsmodels' shapes: one entry per column, plus one for the
    constant.
- `forecast.dfy` (module `Forecast`): the loop that builds `forecast_model`.
- `script.dfy` (module `Script`): parts 2 to 4 in order. It runs the one-shot block,
  resets, runs the elimination loop, and builds the forecast model.
- `sequences.dfy` (module `Sequences`) holds the helpers:
  - `Delete`, which models `list.pop(k)` and `np.delete(x, k, 1)` on the list of columns;
  - sub-sequence facts.

The design matrix `x` is held as its list of predictor columns, so deleting column `k` of
the matrix is deleting entry `k` of the list. The state of the loop is `State(x,
kept, elim)`: the columns, `columns_kept` and `columns_elim`. Two things stop the
loop as written:

- It stops when the largest p-value drops below 0.05.
- It raises when `np.argmax` meets an empty p-value list. That happens once every
  predictor has been dropped. The model records it as `ArgmaxOfEmpty`.

If the largest p-value is exactly 0.05, the loop as written never stops (see
Findings). A run of `RunAsWritten` is therefore bounded by a `fuel` count, and
`FuelExhausted` marks a run that has not ended within it. `RunAsWritten` follows the
code, with its `>=` guard. `RunCorrected` uses the removal test of line 112 as its
guard as well: the strict `> .05`, which the comment at line 110 ("above 5%") also
describes. The comment at line 91 ("until all p_values are less than 5%") points the
other way, towards removing at `>= .05`; the model does not take that reading.
`AsWrittenAgreesWithCorrected` proves that the two loops end in the same outcome
whenever the code's loop ends at all.

## Model

| member | source | states |
|---|---|---|
| Correlation.SignificantCorrelations | correlation_and_regression.py:46-56 | `sig_corr_coefs` has one line per kept cell of the upper triangle, in scan order. The line for cell (i, j) is `[names[i], names[j], corr[i][j]]`, where `names = column_titles[1:]`. |
| Correlation.ReportedLine | correlation_and_regression.py:52-56 | Every reported line comes from a cell with i <= j < n. Its names are `column_titles[1:][i]` and `column_titles[1:][j]`, and its coefficient is exactly `corr_coefs[i][j]`. |
| Correlation.SelectionBounds | correlation_and_regression.py:47-48 | Every reported cell lies in the upper triangle (diagonal included) of the rows scanned so far. |
| Correlation.RowSelectionBounds | correlation_and_regression.py:48 | The cells kept from one row lie in that row, from the diagonal up to the column where the inner loop has got to. |
| Correlation.SelectionSound | correlation_and_regression.py:49-51 | Every reported cell has a coefficient strictly above 0.5 or strictly below -0.5, and two different names. |
| Correlation.RowSelectionSound | correlation_and_regression.py:49-51 | The same for the cells kept from one row. |
| Correlation.SelectionComplete | correlation_and_regression.py:47-51 | Every cell of the upper triangle that passes both tests is reported. |
| Correlation.RowSelectionComplete | correlation_and_regression.py:48-51 | Every cell of a row that passes both tests is kept from that row. |
| Correlation.SelectionContainsRow | correlation_and_regression.py:47-48 | The cells kept from a row are all in the report once the outer loop has passed that row. |
| Correlation.SelectionRowMajor | correlation_and_regression.py:47-48 | The report is in strictly increasing row-major order of cells. |
| Correlation.RowSelectionSorted | correlation_and_regression.py:48 | The cells kept from one row are in increasing column order. |
| Correlation.NoRepeatedOrMirroredPair | correlation_and_regression.py:44-51 | No diagonal cell is reported. No cell is reported twice. When (i, j) is reported, (j, i) is not. |
| Correlation.DistinctNamesExcludeOnlyDiagonal | correlation_and_regression.py:50-51 | When the names are pairwise distinct, the name test excludes exactly the diagonal. A cell is then kept if and only if it is significant and i != j. |
| Correlation.SharedNameHidesCorrelation | correlation_and_regression.py:51 | Two different series with the same title are never reported, even when their coefficient is 0.9. |
| Sequences.Delete | correlation_and_regression.py:114-117 | `pop(k)` and `np.delete(.., k, 1)` shorten the list by one. Entries before `k` stay in place, and entries after `k` move down by one. |
| Sequences.DeleteMultiset | correlation_and_regression.py:114 | The popped entry together with the remaining list holds exactly the old list's entries. |
| Sequences.DeleteIsSubsequence | correlation_and_regression.py:114-117 | After a deletion, the list is a sub-sequence of the list before it. |
| Elimination.PValues | correlation_and_regression.py:107 | `fit.pvalues[1:]` drops the intercept's p-value: entry `i` is `pvalues[i + 1]`, and with Python slicing the list is empty when `pvalues` is empty. |
| Elimination.Init | correlation_and_regression.py:93-98 | The loop starts from all predictors, with `columns_kept = column_titles[2:]` paired with them and `columns_elim` empty. |
| Elimination.ArgMax | correlation_and_regression.py:108 | `np.argmax` returns an index of a largest entry. Every earlier entry is strictly smaller, so it is the first such index. |
| Elimination.Max | correlation_and_regression.py:111 | `np.amax` returns an entry of the list that is at least every entry. |
| Elimination.MaxAtArgMax | correlation_and_regression.py:108-111 | `np.amax(ps) == ps[np.argmax(ps)]`. |
| Elimination.Step | correlation_and_regression.py:107-117 | An empty p-value list is reported if and only if no predictors are left. Otherwise at most one predictor is removed. It is removed exactly when the largest p-value is strictly above 0.05. Its name and its column go at the same index, and `{title, p_value}` is appended to `columns_elim`. Names and columns stay in lockstep. At 0.05 or below nothing changes. |
| Elimination.StepPicksFirstLargest | correlation_and_regression.py:107-111 | The chosen index is the first one where the largest p-value occurs, and `max_p_value` is `np.amax(ps)`. |
| Elimination.StepEvolves | correlation_and_regression.py:112-117 | One round either changes nothing or removes a name with its own column and records it. |
| Elimination.RemovalEvolves | correlation_and_regression.py:112-117 | A removal takes out the (name, column) pair at one index and records that name after the earlier records, with its p-value above 0.05. The kept and eliminated names together are unchanged as a multiset. |
| Elimination.PairingDelete | correlation_and_regression.py:114-117 | Deleting at the same index from the names and from the columns deletes that (name, column) pair. |
| Elimination.EvolvedTransitive | correlation_and_regression.py:100-117 | Evolution by removals composes across rounds. |
| Elimination.RunAsWritten | correlation_and_regression.py:100-117 | The loop as written. On a normal exit, the outcome's fit is the fit of the final design and every p-value in it is strictly below 0.05, so the last round removed nothing. If `np.argmax` raises, no predictors and no names are left. Names and columns stay in lockstep. |
| Elimination.RunAsWrittenEmpty | correlation_and_regression.py:108 | With no predictors left, the loop raises at `np.argmax`. |
| Elimination.RunAsWrittenFinishes | correlation_and_regression.py:100-111 | A round that leaves `max_p_value` below 0.05 ends the loop with that round's fit. |
| Elimination.RunAsWrittenGoesOn | correlation_and_regression.py:100 | A round that leaves `max_p_value` at 0.05 or above is followed by another round. |
| Elimination.RunAsWrittenEvolves | correlation_and_regression.py:96-117 | However the loop as written ends, it has only removed matching names and columns. `columns_kept` is a sub-sequence of `column_titles[2:]`, and the pairing of names with columns is kept. `columns_elim` is in removal order with every p-value above 0.05. The kept names plus the eliminated titles are a permutation of the original names. |
| Elimination.OneShot | correlation_and_regression.py:73-88 | The one-shot block removes at most one predictor, and one exactly when `np.amax(ps) > .05`. It is the one at `max_index = np.argmax(ps)`, the first largest p-value. Its name is `column_titles[2 + max_index]`, recorded with `np.amax(ps)` and deleted from both lists at `max_index`. Otherwise the names and the design are left as they were. It raises when there are no predictors. |
| Elimination.EliminationRound | correlation_and_regression.py:101-117 | One run of the loop body. It refits, reports whether `np.argmax` would raise, and leaves the state that `Step` of the new fit gives. |
| Elimination.EliminateAsWritten | correlation_and_regression.py:93-117 | The imperative loop, with its `while max_p_value >= .05` guard, ends with exactly the outcome of `RunAsWritten` from the initial state. |
| Elimination.ThresholdFixpoint | correlation_and_regression.py:100-117 | When the largest p-value is exactly 0.05, a round changes nothing and the refit is the same. The loop as written exhausts every fuel bound in the same state. |
| Elimination.ThresholdHangExample | correlation_and_regression.py:100-112 | A design with one predictor whose p-value is 0.05 makes the loop as written run out of every fuel bound. |
| Elimination.EveryPredictorDroppedRaises | correlation_and_regression.py:107-117 | With one predictor at p-value 0.5, the loop drops it. The next round's `np.argmax` then raises, with `columns_elim = [{rate, 0.5}]`. |
| Elimination.HangOnlyAtThreshold | correlation_and_regression.py:100-117 | Given at least as many rounds as predictors, the loop as written runs out of fuel only at a state whose largest p-value is exactly 0.05. |
| Elimination.RunCorrected | correlation_and_regression.py:100-117 | The loop with guard `> .05`. It always ends, by recursion on the number of predictors. On a normal exit its fit is the final design's fit, with every p-value at most 0.05. If it raises, no predictors are left. |
| Elimination.RunCorrectedEvolves | correlation_and_regression.py:96-117 | The corrected loop's final state evolved from its start by matching removals, as in RunAsWrittenEvolves. |
| Elimination.AsWrittenAgreesWithCorrected | correlation_and_regression.py:100-117 | For every fuel bound, the loop as written either runs out or ends exactly as the corrected loop does. |
| Elimination.CorrectedIsWhereAsWrittenStops | correlation_and_regression.py:100-117 | The same agreement, for all fuel bounds at once. |
| Elimination.EliminateCorrected | correlation_and_regression.py:93-117 | The imperative loop with guard `> .05` ends with exactly the outcome of `RunCorrected`. |
| Forecast.BuildForecastModel | correlation_and_regression.py:128-136 | `forecast_model` has `len(ps) + 1` entries. Entry 0 is `{constant, params[0]}` and entry `i+1` is `{columns_kept[i], params[i+1]}`. Its names are `["constant"] + columns_kept[:len(ps)]` and its coefficients are `params[:len(ps)+1]`. |
| Script.RegressionScript | correlation_and_regression.py:64-136 | Parts 2 to 4 in order. The one-shot block raises when there are no predictors. The loop starts afresh from the full design, and its outcome is the one the loop as written reaches whenever that loop stops. `columns_kept` ends as a sub-sequence of `column_titles[2:]`. A model exists exactly when the loop ends normally. Then its names are `"constant"` followed by the kept names, its coefficients are the final fit's `params`, and every kept p-value is at most 0.05. |

## Left out

- Reading the CSV (lines 24-28): I/O. The header is the input `titles`.
- Building the object array and casting to float (lines 35-38): numpy parsing. The
  dependent series `y` and the predictor columns `x0` are inputs of `real`s.
- `np.corrcoef` (line 42): foreign floating-point numerics. The matrix is an input.
  With a single series, numpy returns a 0-d array and `len` raises; that case is not
  modelled.
- statsmodels' `add_constant`, `OLS`, `fit` and `summary` (lines 68-71, 101-104): foreign
  numerics. A fit is the parameter `ols`. Singular designs and NaN p-values are not
  modelled. Comparisons are on exact `real`s, without floating-point rounding.
- Printing (lines 59-61, 74, 121-125) and the commented-out lines (31-32, 119-120):
  output only.
- Statistical claims, for example that an irrelevant predictor gets eliminated: those
  depend on the library's numerics.
- The matrix layout of `x` (observations by predictors) and its transposition: the
  model keeps the list of predictor columns.
- RunAsWritten: the unbounded `while` loop is bounded by `fuel`, which allows at most
  `fuel + 1` rounds. `FuelExhausted` only stands for a run that has not ended.
  HangOnlyAtThreshold shows that with enough fuel this happens only at the 0.05
  fixpoint.
- EliminateAsWritten: the same `fuel` bound as RunAsWritten.
- Script.RegressionScript: it runs the corrected loop. By CorrectedIsWhereAsWrittenStops,
  its outcome is the code's outcome whenever the code's loop ends.
- Correlation.SignificantCorrelations: it requires a square matrix with fewer rows than
  there are titles. The script always meets this, because `np.corrcoef` of the data
  rows is n x n with n = `len(column_titles) - 1`. Otherwise the indexing raises.
- Forecast.BuildForecastModel: it requires `len(ps) <= len(columns_kept)` and
  `len(ps) < len(params)`. Out of range, the indexing raises; after a normal exit of
  the loop, both hold.
- A predictor column that is already a nonzero constant: `sm.add_constant` (lines 68
  and 101) then adds no intercept, so `pvalues[1:]` drops a predictor's p-value and the
  p-values no longer line up with `columns_kept`. `WellShaped` assumes the intercept is
  always added. A constant series also gives NaN correlations at line 42, which are
  never reported. Both cases are outside the model.
- Elimination.OneShot: it requires the fit to have one p-value per predictor, as
  statsmodels returns.

## Findings

| source | as written | input that shows it | evidently intended | confidence | as-written member | corrected member |
|---|---|---|---|---|---|---|
| correlation_and_regression.py:100 | The loop guard is `max_p_value >= .05`, but the removal test at line 112 is `max_p_value > .05`. When the largest p-value is exactly 0.05, nothing is removed, the refit gives the same p-values, and the loop never ends. | One predictor, "rate", whose fit has p-value exactly 0.05 | The same strict threshold at both tests: stop once nothing is removed, leaving every p-value at most 0.05 | not executed | Elimination.ThresholdHangExample | Elimination.RunCorrected |
