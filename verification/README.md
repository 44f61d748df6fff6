# Cost stickiness in Norwegian firms: the panel pipeline in Dafny

This project models the data pipeline of a study of cost stickiness in Norwegian
limited companies. The pipeline turns yearly financial statements into a
firm-year panel. It then selects four regression samples and formats their
results into a table.

The model covers four stages:

- **Building the panel** (`behandle_data_og_lag_variabler.py`):
  - the derived accounting items, with missing inputs read as zero;
  - the period keys that match a closing date to a consumer-price-index month;
  - deflation of the money columns by that index, keeping nominal copies of three of them;
  - the self-join that brings in last year's and the year before's figures and GDP;
  - the 2008–2021 window and the kept columns.
- **Sample selection** (`funksjoner.py`):
  - excluding industries;
  - requiring earlier statements;
  - dropping non-positive values;
  - the selection ledger that counts what each step removed.
- **Reporting** (`funksjoner.py`):
  - the fixed-effect dummy names;
  - number formatting: trailing zeros, decimal comma, significance stars, thousand separator;
  - each model's column of results;
  - moving rows to the bottom of the table.
- **The analysis script** (`analysere.py`):
  - the cost-measure guard;
  - the payroll filter;
  - the firm-year uniqueness check;
  - the four models' variable lists;
  - the derived growth regressors;
  - the final row reordering.

## Modules

| file | module | what it holds |
|---|---|---|
| `common.dfy` | `Common` | `Option` and `Result` |
| `seqs.dfy` | `Seqs` | `Filter`, `CountWhere`, `Map`, `Distinct` and their lemmas |
| `digits.dfy` | `Digits` | decimal digits, parsing and printing naturals |
| `strings.dfy` | `Strings` | `str.replace` for one character; string ordering |
| `series.dfy` | `Series` | a pandas `Series` built by `s[k] = v`, as an ordered dictionary |
| `panel.dfy` | `Panel` | the statement row and its named columns |
| `derivation.dfy` | `Derivation` | the derived accounting items |
| `periods.dfy` | `Periods` | the year-month keys of closing dates and index months |
| `deflation.dfy` | `Deflation` | deflating rows and the whole panel |
| `lags.dfy` | `Lags` | the prior-year self-join and GDP |
| `build.dfy` | `Build` | the whole panel-building script |
| `selection.dfy` | `Selection` | `sample_selection` and its ledger |
| `formatting.dfy` | `Formatting` | number formatting |
| `fixed_effects.dfy` | `FixedEffects` | the year and industry dummy names |
| `reporting.dfy` | `Reporting` | `shift_row_to_bottom`, a model's results column, the table reordering |
| `analysis.dfy` | `Analysis` | the analysis script |

Operations that can raise in the source return a `Result`. The error says which
case raised.

Values the model cannot compute are inputs:

- The consumer price index is a map from year-month key to a positive real.
- GDP is a map from year to real.
- A fitted regression (`Fit`) is a map from variable name to its rounded
  coefficient text and p-value, plus the R² text.
- The natural logarithm is a function parameter. It is constrained only to be
  increasing and zero at one.

## Model

| member | source | states |
|---|---|---|
| Derivation.Coalesce | behandle_data_og_lag_variabler.py:81-90 | the fallback is missing only when both the primary item and its fallback are missing |
| Derivation.DeriveRow | behandle_data_og_lag_variabler.py:52-97 | every derived item is present and given by its formula; every other column and the row's identity are unchanged |
| Derivation.MissingIsZero | behandle_data_og_lag_variabler.py:52-97 | a missing input that the script zero-fills gives the same derived value as an explicit zero |
| Derivation.MissingPrimaryIsNotZero | behandle_data_og_lag_variabler.py:80-84 | a missing `Varer` is not read as zero: the `Sum varer` fallback wins |
| Derivation.InventoryFallback | behandle_data_og_lag_variabler.py:80-84 | inventory is `Varer` when present, otherwise `Sum varer` or zero, plus biological assets |
| Derivation.ReceivablesFallback | behandle_data_og_lag_variabler.py:86-90 | receivables are `Sum fordringer` when present, otherwise `Kundefordringer` or zero |
| Periods.KeyOfDigits | behandle_data_og_lag_variabler.py:128-139 | four year digits followed by two month digits parse to year·100 + month, and year and month come back out by division |
| Periods.ClosingKeyOfDate | behandle_data_og_lag_variabler.py:136-139 | a `YYYY-MM...` closing date maps to the key year·100 + month, whatever follows the month |
| Periods.CpiKeyOfLabel | behandle_data_og_lag_variabler.py:128-130 | a `YYYYMmm` index label maps to the key year·100 + month |
| Periods.ClosingMatchesCpi | behandle_data_og_lag_variabler.py:128-155 | a closing date and the index label of the same year and month get the same key |
| Periods.ClosingKeyRejectsText | behandle_data_og_lag_variabler.py:136-139 | a closing date with an ASCII letter among its first seven characters has no key (the `int()` conversion raises) |
| Periods.CpiKeyRejectsText | behandle_data_og_lag_variabler.py:128-130 | an index label with an ASCII letter other than `M` has no key |
| Periods.JoinedKey | behandle_data_og_lag_variabler.py:128-139 | removing any non-digit separator between year and month digits leaves the same key |
| Deflation.DeflateRow | behandle_data_og_lag_variabler.py:141-157 | the eight money columns are divided by the index; the three nominal copies hold the undeflated values; every other column is unchanged |
| Deflation.UnitIndexChangesNothing | behandle_data_og_lag_variabler.py:141-157 | with index 1 every column other than the nominal copies is unchanged |
| Deflation.ReflateRoundTrip | behandle_data_og_lag_variabler.py:141-157 | deflated sales times the index gives back the nominal sales copy |
| Deflation.FirstUnparsable | behandle_data_og_lag_variabler.py:136-139 | reports a closing date without a key exactly when one exists, and that date is in the panel |
| Deflation.FirstMissing | behandle_data_og_lag_variabler.py:155 | reports a key missing from the index series exactly when some statement's key is missing |
| Deflation.DeflatePanel | behandle_data_og_lag_variabler.py:136-157 | succeeds exactly when every statement's closing date has a key present in the index; then each row is deflated by its own month's index, in place |
| Deflation.UnitSeriesChangesNothing | behandle_data_og_lag_variabler.py:141-157 | an index of 1 everywhere leaves every column other than the nominal copies unchanged |
| Lags.JoinRow | behandle_data_og_lag_variabler.py:190-200 | an analysed row gets each lag from the same firm's statement one or two years back, and GDP for its year and the year before; nothing else changes |
| Lags.Unjoined | behandle_data_og_lag_variabler.py:162-170 | a row outside the window keeps missing lags and GDP |
| Lags.YearsInOrder | behandle_data_og_lag_variabler.py:172 | the loop visits exactly the years that have analysed rows |
| Lags.YearError | behandle_data_og_lag_variabler.py:175-200 | one year's iteration fails exactly when one of its rows has two prior statements of its firm, or GDP lacks the year or the year before |
| Lags.FirstError | behandle_data_og_lag_variabler.py:172-200 | the loop fails exactly when some visited year fails |
| Lags.AttachLags | behandle_data_og_lag_variabler.py:162-202 | the join succeeds exactly when every analysed row can be joined; rows stay in place; analysed rows are joined and the others get missing lags |
| Lags.LagFromPriorYear | behandle_data_og_lag_variabler.py:190-195 | each `_prev` column is the same firm's value from the previous year |
| Lags.LagFromTwoYearsBack | behandle_data_og_lag_variabler.py:191-197 | `Salg_prev_prev` is the same firm's sales two years back |
| Lags.LagMissingWithoutPriorYear | behandle_data_og_lag_variabler.py:190-195 | without a statement for the previous year, every `_prev` column is missing |
| Lags.DuplicatePriorFails | behandle_data_og_lag_variabler.py:190-192 | two statements of the firm in the previous year make the join fail |
| Build.Project | behandle_data_og_lag_variabler.py:204-231 | the kept columns keep their values and all other columns are dropped |
| Build.BuildPanel | behandle_data_og_lag_variabler.py:40-231 | fails on deflation exactly when some statement up to 2021 cannot be deflated; succeeds exactly when deflation and the join both can; the result has one row per 2008–2021 statement, in order, each with that statement's firm and year, its derived and deflated values in the kept columns, lags and GDP from the join, and every other column dropped |
| Build.BuiltLagFromPriorYear | behandle_data_og_lag_variabler.py:162-202 | in the built panel each `_prev` column is the same firm's derived and deflated value from the previous year |
| Build.BuiltLagFromTwoYearsBack | behandle_data_og_lag_variabler.py:162-202 | in the built panel `Salg_prev_prev` is the same firm's deflated sales two years back |
| Build.DeflatedAligned | behandle_data_og_lag_variabler.py:141-157 | deflation keeps every row's firm and year in place |
| Build.JoinedAligned | behandle_data_og_lag_variabler.py:162-202 | the join keeps every row's firm and year in place |
| Build.JoinableAligned | behandle_data_og_lag_variabler.py:190-192 | whether the join can succeed depends only on the firms and years |
| Build.WindowOfLoaded | behandle_data_og_lag_variabler.py:107 | the 2008 filter applied after the 2021 filter selects the 2008–2021 statements |
| Selection.TextInjective | funksjoner.py:170-190 | different ledger entries have different row labels |
| Selection.ExcludeIndustries | funksjoner.py:137-152 | keeps, in order, exactly the rows outside the seven excluded industries, and records how many were dropped |
| Selection.ExcludeMissingPrev | funksjoner.py:113-130 | one earlier year requires `Salg_prev`; two earlier years also require `Salg_prev_prev`; each count is the rows that step dropped; any other setting keeps every row and leaves the second count blank |
| Selection.ExcludeMissingPrevKeeps | funksjoner.py:113-130 | the rows kept are exactly those with the required lags |
| Selection.DropNonPositive | funksjoner.py:158-162 | the column-by-column loop keeps exactly the rows positive in every listed column |
| Selection.RemoveNonPositive | funksjoner.py:155-167 | every kept row is positive in every listed column, and the ledger records how many were dropped |
| Selection.SampleSelection | funksjoner.py:170-193 | the sample is exactly the rows passing all three steps, in order; the ledger has its labels in the source's order; each count is the number of rows its own step dropped (industries, no previous year, no year before that, non-positive values), and the counts add up from the initial count to the final one |
| Selection.SelectionOneShot | funksjoner.py:170-193 | running the three filters in turn equals filtering once by their conjunction |
| Formatting.AddTrailingZeros | funksjoner.py:12-15 | pads with zeros until there are exactly the required decimals after the last point |
| Formatting.AddTrailingZerosIdempotent | funksjoner.py:12-15 | padding an already padded number changes nothing |
| Formatting.PaddingNeverStops | funksjoner.py:12-15 | with more decimals than required, no amount of padding reaches the target, so the loop never ends |
| Formatting.ThousandSeparator | funksjoner.py:133-134 | the text is a leading group of one to three digits, then groups of exactly three digits each after a single space; it starts with `0` only for zero |
| Formatting.ThousandSeparatorRoundTrip | funksjoner.py:133-134 | removing the spaces and parsing gives back the number |
| Formatting.Stars | funksjoner.py:74-82 | at most four stars |
| Formatting.StarsCountThresholds | funksjoner.py:74-82 | the number of stars is the number of thresholds 0.001, 0.01, 0.05, 0.10 the p-value is below |
| Formatting.StarsMonotone | funksjoner.py:74-82 | a larger p-value never gets more stars |
| Formatting.FormatCoefficient | funksjoner.py:69-82 | the coefficient with a decimal comma, padded to three decimals, then its stars; no decimal point remains |
| Formatting.FormatCoefficientExample | funksjoner.py:69-82 | `0.1` with p = 0.002 becomes `0,100***` |
| FixedEffects.Categories | funksjoner.py:51-60 | the dummy categories are exactly the values present, in increasing order |
| FixedEffects.DummyCount | funksjoner.py:51-60 | one dummy for every distinct value but one |
| FixedEffects.DummiesOmitLargest | funksjoner.py:51-60 | the largest value is the one left out; every other value has its dummy |
| FixedEffects.DummyFor | funksjoner.py:51-60 | a present value has a dummy exactly when some present value is larger |
| FixedEffects.YearDummies | funksjoner.py:51-55 | every year dummy is named `dy` followed by a year present in the rows, for which a later year is present |
| FixedEffects.YearDummiesOmitLatest | funksjoner.py:51-55 | a present year has a dummy exactly when a later year is present |
| FixedEffects.IndustryDummies | funksjoner.py:56-60 | every industry dummy is named `di` followed by an industry code present in the rows, for which a later code in sorted order is present |
| FixedEffects.FixedEffectColumns | funksjoner.py:51-60 | no year dummy shares its name with an industry dummy |
| FixedEffects.FixedEffectCount | funksjoner.py:51-60 | distinct years minus one plus distinct industries minus one dummies |
| Reporting.RemoveFirst | funksjoner.py:19-20 | `list.remove`: when the label is present, deletes its first occurrence and keeps everything else in order; otherwise changes nothing |
| Reporting.ShiftRowToBottom | funksjoner.py:18-22 | fails exactly when the label is absent, or when the index repeats a label and the move would change it (the re-indexing raises); otherwise the label's first occurrence moves to the bottom and the rest keep their order |
| Reporting.ShiftIsPermutation | funksjoner.py:18-22 | moving a row reorders the index without adding or losing labels |
| Reporting.ShiftAtBottom | funksjoner.py:18-22 | moving the row already at the bottom changes nothing |
| Reporting.ShiftAll | analysere.py:226-230 | on an index without repeats the moves fail exactly when a label is absent; on one with repeats they fail exactly when some move would change the index; otherwise they permute it |
| Reporting.ShiftAllAppends | analysere.py:226-230 | moving distinct labels one after another leaves them at the bottom in the order moved |
| Reporting.ReorderTrailerEnds | analysere.py:226-230 | fails exactly when one of Konstant, År FE, Bransje FE, R2 and Antall observasjoner is absent or the index repeats a label; otherwise the result permutes the index and ends with those five rows |
| Reporting.ModelColumn | funksjoner.py:66-102 | fails exactly when the intercept or a regressor has no estimate, naming a missing one; otherwise the column holds the observation count with separators, R² with a decimal comma, and `Ja` for both fixed effects |
| Reporting.MissingIff | funksjoner.py:66-70 | nothing is missing exactly when the intercept and every regressor have estimates |
| Reporting.TrailerWritten | funksjoner.py:89-102 | the four trailer rows hold the count, R² and the two `Ja` cells |
| Reporting.RegressorCell | funksjoner.py:66-87 | a regressor's row holds its formatted coefficient |
| Reporting.InterceptCell | funksjoner.py:83-87 | the `Konstant` row holds the intercept's formatted coefficient |
| Reporting.ModelColumnLabels | funksjoner.py:66-102 | the rows are Konstant, the regressors in order, then the four trailer rows |
| Analysis.CostColumns | analysere.py:17-24 | accepts exactly `Driftskostnader` and `Varekostnader`, naming the level column and its `_prev` column; anything else raises |
| Analysis.CostColumnsRoundTrip | analysere.py:17-24 | each cost column's name is accepted and maps back to that column and its lag |
| Analysis.PayrollFilter | analysere.py:43 | keeps exactly the rows with nominal payroll above 5 000 000, in order |
| Analysis.PayrollFilterIdempotent | analysere.py:43 | filtering twice equals filtering once |
| Analysis.CheckFirmYears | analysere.py:45-49 | passes exactly when all firm-year groups have the same size, returning the panel unchanged; an empty panel raises |
| Analysis.OneGroupSize | analysere.py:45-49 | a single group size means every row's group has the size of the first row's group |
| Analysis.UniqueFirmYearsPass | analysere.py:45-49 | a panel of unique firm-years passes, with every group of size one |
| Analysis.DoubledPanelPasses | analysere.py:45-49 | a panel with every firm-year twice is not unique, yet passes, since all its groups have size two |
| Analysis.OneDuplicateFails | analysere.py:45-49 | a unique panel of two or more rows with one row repeated raises |
| Analysis.ModelSpec | analysere.py:60-218 | models 1 and 2 need one earlier year, 3 and 4 two and check `Salg_prev_prev`; every `var_log` starts with the cost, its lag, sales and its lag; every log ratio's columns are in `var_log`; the response is the log cost growth |
| Analysis.ModelSample | analysere.py:60-193 | a model's sample keeps source rows in order, each positive in every `var_log` column, and its ledger runs from the panel size to the sample size |
| Analysis.Downturn | analysere.py:71 | `DlnSalg` is the smaller of the growth and zero: never positive, at most the growth, negative exactly when the growth is |
| Analysis.Interaction | analysere.py:205-209 | an indicator times a value is the value when the indicator holds and zero otherwise |
| Analysis.DlnSalgPrev | analysere.py:161 | this year's growth after a year of falling sales, zero otherwise |
| Analysis.Regressors | analysere.py:69-218 | one value per regressor name; models 1–3 start with sales growth and its downturn; every downturn term is zero in a year of growing sales; with zero sales growth every regressor of models 1, 2 and 4 is zero |
| Analysis.RatiosInVarLog | analysere.py:60-201 | every column a model takes a log ratio of is in its `var_log` |
| Analysis.LogArgumentsPositive | analysere.py:60-201 | after selection both sides of every log ratio are positive, and so is their quotient |
| Analysis.ModelColumnShape | analysere.py:74-221 | each model's results column has Konstant, its regressors in order, then the four trailer rows |
| Analysis.RegressorsClear | analysere.py:74-221 | no model repeats a regressor or names one after the intercept, Konstant or a trailer row |
| Analysis.TrailerReorderSucceeds | analysere.py:226-230 | a table holding a model's column can be reordered exactly when it repeats no label; the result permutes it and ends with the trailer rows |
| Analysis.DownturnIsNegativePart | analysere.py:71 | `DlnSalg` is the negative part of sales growth: non-positive, at most the growth, and unchanged when taken twice |
| Analysis.IndicatorsExclusive | analysere.py:202-203 | `I_prev` and `D_prev` are never both set, and are both unset exactly when last year's growth is zero |
| Analysis.InteractionsSplit | analysere.py:205-209 | the `I_prev` and `D_prev` interactions of a value add up to the value, unless last year's growth is zero |
| Analysis.DlnSalgPrevIsDPrevInteraction | analysere.py:161 | `DlnSalgPrev` is this year's growth when last year's growth was negative, and zero otherwise |
| Analysis.DlnSalgPrevExample | analysere.py:161 | growth 0.5 after a fall of 0.2 gives `DlnSalgPrev` = 0.5, a rise, while the downturn of −0.2 is −0.2 |
| Analysis.Model4Recombines | analysere.py:198-209 | model 4's regressors recombine into sales growth and its downturn, or are all zero when last year's growth is zero |
| Analysis.DownturnWhenSalesFall | analysere.py:69-71 | `DlnSalg` is nonzero exactly when sales fell from last year |

## Behaviour kept as written

- `DlnSalgPrev` in model 3 is `(lnSalgPrev < 0) * lnSalg`. It multiplies this
  year's growth, not last year's, by the indicator of last year's fall. The model
  keeps that (`Analysis.DlnSalgPrev`). `Analysis.DlnSalgPrevIsDPrevInteraction`
  shows it is the same as model 4's `D_prev_lnSalg`.
- `add_tailing_zeros_decimals` loops forever on a number with more decimals than
  asked for. `Formatting.PaddingNeverStops` shows no padding can stop it.
  `Formatting.AddTrailingZeros` requires at most that many decimals.
- The firm-year check compares group sizes only. The study's own description
  says it rejects any duplicated firm-year. The model follows the code:
  - a panel in which every firm-year appears twice passes;
  - a single duplicate in a unique panel of at least two rows raises.
- `exclude_missing_prev_year` prints an error and keeps every row when the
  number of earlier years is neither 1 nor 2. The model keeps the rows; the
  print is left out.
- Two statements of one firm in the previous year make the join's re-indexing
  raise. The model returns `DuplicatePriorOrgnr` for that year.

## Left out

- File input and output: CSV and Excel reading and writing, folder handling, the yearly read-and-concatenate loop and progress bars.
- The regression itself (`ols(...).fit` with firm-clustered covariance): coefficients, p-values and R² are inputs in `Fit`.
- `np.log`, `np.round` and `str` of a float: growth values are given reals, the log is an abstract increasing function, and coefficient texts are given already rounded; scientific notation in `str(float)` is not covered.
- `model_preparing` (building the regression data frame and the formula string) and the commented-out size filter.
- `reset_index` calls: rows are sequences, so positions are the index.
- The ledger stores counts rather than their `thousand_seperator` text, which `Formatting.ThousandSeparatorRoundTrip` shows is a faithful encoding.
- Concatenating the models' columns into `results_df` and `sample_selection_table`, including the order pandas gives the union of their row labels.
- GDP growth in model 2 (`bnp / bnp_prev - 1`): a given real in `Growth`.
- NaN arithmetic in the boolean masks: a missing value is `None`, and the masks treat it the way the source's `isnull` tests do.
- A zero or negative index value: the index is a positive real by type.
- `orgform`, a text column the script only carries along, is not a column of the model's row; the other kept columns are.
- Formatting.AddTrailingZeros: requires at most the target number of decimals, because the source never returns otherwise.
- Formatting.FormatCoefficient: requires a coefficient text with at most three decimals, for the same reason.
- Reporting.RegressorCell: excludes regressors named Konstant, Intercept or a trailer label, because their cells are overwritten by the intercept or trailer rows; `Analysis.RegressorsClear` shows no model uses such a name.
- Periods.ClosingKeyRejectsText: `ClosingKey` and `CpiKey` read only plain digit strings. Python's `int()` also accepts surrounding whitespace, a sign, underscores between digits and non-ASCII digits, so a date such as `2021_12-31` has a key in the source and none in the model. The closing dates and index labels the script reads are plain digits and separators.
- Reporting.ShiftRowToBottom: the repeated-label failure models the re-indexing's refusal of a duplicated axis; the analysis script's results index never repeats a label, since it is the union of the model columns' labels, whose concatenation is not modelled.
