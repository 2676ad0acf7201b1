# Kaplan-Meier survival comparison

A Dafny model of the survival-curve engine of the LUAD risk-model server
(`python-server/model.py`). A classifier upstream gives every patient a predicted label,
0 or 1. The engine then compares the survival of the two predicted groups:

- **`build_event_table`** (module `EventTable`) takes one group's times (days to death,
  or the censoring sentinel 1,000,000) and a shared horizon of days. It fills a zero
  table row by row. Each row holds the number of deaths on that day (`event`), the number
  still at risk (`atRisk`) and the cumulative Kaplan-Meier survival estimate (`p`).
  `atRisk` is the group size on row 0, and the previous row's `atRisk - event` after that.
  `p` is the previous `p` (1 on row 0) times `1 - event / atRisk`, with a divisor of 1 when
  `atRisk` is 0. The method `BuildEventTable` writes an array the way the source writes
  its DataFrame: it reads row `i - 1` back to start row `i`. It is proved equal to the
  left fold `Table`/`TableFrom`, which carries the number at risk and the survival
  estimate. The lemmas then prove the recurrence row by row, what the numbers at risk
  count, the bounds and monotonicity of `atRisk` and `p`, the product-limit form of `p`,
  and the empty-group case.
- **`get_survival_curve`** (module `SurvivalCurve`) builds the horizon: the sorted
  distinct cohort times with the largest dropped. It splits the cohort by label, builds
  both tables over the same horizon, and computes the observed-event indicators. It then
  calls the log-rank test, replaces a NaN p-value with 100.0, and assembles
  `{data: [{day, gp_0, gp_1}], p_val}`. The log-rank test is a parameter of type
  `LogRank`, whose `None` result stands for NaN.

Times are `int`, labels are `int`, and every quantity in a table is exact: counts are
`nat`/`int` and survival estimates are `real`. A cohort is a sequence of times with a
parallel sequence of labels.

In two places the model follows the code rather than the textbook description of the estimator:
- The divisor guard replaces only an `atRisk` of exactly 0 with 1 (`if not at_risk`). It
  does not clamp `atRisk` at 1. `AtRiskNonNegative` shows that a negative `atRisk` cannot
  occur when the horizon has no repeated day.
- The horizon drops the largest cohort time, whatever its value. It does not test for
  the sentinel.

## Model

| member | source | states |
|---|---|---|
| EventTable.CountIsMultiplicity | python-server/model.py:176 | the number of group subjects having a given time equals that time's multiplicity in the group |
| EventTable.ValueCounts | python-server/model.py:176 | the frequency table has a key exactly for each time present in the group, and looking a day up with default 0 (`vc.get(day, default=0)`) gives the number of subjects with that time |
| EventTable.TableFrom | python-server/model.py:173-193 | the fold gives exactly one row per horizon day |
| EventTable.TableFromRows | python-server/model.py:178-189 | row `k` is for horizon day `k`, and its `event` is the number of subjects whose time is that day (0 if none) |
| EventTable.SurvivalColumn | python-server/model.py:159-160 | the `p` column has one entry per row, equal to that row's `p` |
| EventTable.BuildEventTable | python-server/model.py:172-195 | the row-by-row fill of the zero table, reading the previous row back, yields exactly the fold `Table(group, horizon)` |
| EventTable.RowRecurrence | python-server/model.py:179-193 | row 0 is computed from the whole group at risk and survival 1; row `i > 0` from the previous row's `atRisk - event` and `p` |
| EventTable.TableFromRecurrence | python-server/model.py:178-193 | the same recurrence for the fold from any starting state |
| EventTable.AtRiskCountsRemaining | python-server/model.py:179-183 | with no repeated day, row `i`'s `atRisk` is the number of subjects whose time is none of the earlier days |
| EventTable.EventsWithinAtRisk | python-server/model.py:186-190 | with no repeated day, `0 <= event <= atRisk` on every row |
| EventTable.AtRiskIsAtLeastDay | python-server/model.py:179-190 | for an ascending horizon that covers every group time except ones beyond its end, `atRisk` is the number of subjects with time at least that day |
| EventTable.AtRiskNonIncreasing | python-server/model.py:183 | `atRisk` never increases from a row to a later one |
| EventTable.AtRiskNonNegative | python-server/model.py:180-183 | with no repeated day, `atRisk` is never negative |
| EventTable.SurvivalInUnit | python-server/model.py:184-193 | with no repeated day, every `p` lies in [0, 1] and is at most the previous row's |
| EventTable.SurvivalNonIncreasing | python-server/model.py:184-193 | with no repeated day, `p` never increases from a row to a later one |
| EventTable.NoneAtRiskKeepsSurvival | python-server/model.py:191-193 | a row with nobody at risk has no event and keeps the previous survival estimate (divisor guard) |
| EventTable.SurvivalIsProductLimit | python-server/model.py:184-193 | each `p` is the product of `1 - event / divisor` over its row and all earlier rows (the Kaplan-Meier product-limit estimate) |
| EventTable.EmptyGroupTable | python-server/model.py:179-193 | an empty group gives one row per day with zero events, zero at risk and survival 1 |
| EventTable.OneEventTwoCensored | python-server/model.py:172-195 | times [10, 1000000, 1000000] over horizon [10] give event 1, at risk 3, survival 2/3 |
| SurvivalCurve.Insert | python-server/model.py:135 | inserting into an ascending duplicate-free sequence keeps it so and adds exactly the new value |
| SurvivalCurve.SortedUnique | python-server/model.py:135 | the sorted distinct times are strictly ascending and hold exactly the cohort's times |
| SurvivalCurve.Horizon | python-server/model.py:135 | the horizon is strictly ascending, holds exactly the cohort times below the largest, is one shorter than the distinct times, and is empty for an empty cohort |
| SurvivalCurve.HorizonIsUnique | python-server/model.py:135 | any strictly ascending sequence holding exactly the cohort times below the largest is the horizon |
| SurvivalCurve.HorizonDropsSentinelAndDuplicates | python-server/model.py:135 | times 5, 5, 20, 1000000 give horizon [5, 20] |
| SurvivalCurve.Select | python-server/model.py:137-138 | a group is no longer than the cohort |
| SurvivalCurve.SelectMembers | python-server/model.py:137-138 | a time is in group `k` exactly when some subject labelled `k` has it |
| SurvivalCurve.SelectAppend | python-server/model.py:137-138 | masking a concatenated cohort concatenates the masked parts, so cohort order is kept |
| SurvivalCurve.GroupsPartitionCohort | python-server/model.py:137-138 | with labels in {0, 1}, groups 0 and 1 together hold exactly the cohort's times |
| SurvivalCurve.SelectNoneLabelled | python-server/model.py:137-138 | a label that no subject carries gives an empty group |
| SurvivalCurve.SelectAllLabelled | python-server/model.py:137-138 | a label that every subject carries gives the whole cohort |
| SurvivalCurve.Observed | python-server/model.py:145-146 | the indicator has one entry per subject: 1 iff the time is not 1000000, 0 iff it is |
| SurvivalCurve.ObservedCountsDeaths | python-server/model.py:145-146 | the indicators add up to the number of subjects not at the censoring sentinel |
| SurvivalCurve.PValue | python-server/model.py:154-156 | a NaN test result gives 100.0; otherwise the result itself; for a result in [0, 1], the value is 100.0 exactly when the result is NaN |
| SurvivalCurve.FormatResponse | python-server/model.py:163-167 | one record per day, record `i` being `(days[i], gp0[i], gp1[i])`, with the p-value once beside them |
| SurvivalCurve.GetSurvivalCurve | python-server/model.py:131-169 | the response has one record per horizon day holding the day and both groups' survival estimates from `Table` over the shared horizon, and the p-value of the log-rank test on the two groups and their indicators, or 100.0 |
| SurvivalCurve.GroupTimesCovered | python-server/model.py:135-138 | every time of a group is a horizon day or later than every horizon day |
| SurvivalCurve.CurveProperties | python-server/model.py:131-193 | on each group's curve, `atRisk` counts the subjects whose time is at least the day, `0 <= event <= atRisk`, and survival lies in [0, 1] and does not increase |
| SurvivalCurve.AllLabelledOneGivesSentinel | python-server/model.py:137-156 | when every label is 1 and the test yields NaN for an empty first group, group 0 is empty, group 1 is the cohort, the p-value is 100.0, and group 0's survival stays 1 |

The ensures of `GetSurvivalCurve` determine the whole response from the cohort, the labels and
the test. So two calls on the same input give the same response.

## Left out

- `train_model`, `get_feature_importance`, `prepare_data`, `run_model_creation` and the
  `warnings.warn` override: these are grid search, SHAP attribution, floating-point
  normalisation and JSON glue over foreign libraries.
- The internals of `logrank_test`: it is a library call. It is the parameter `logrank`,
  and NaN is `None`. That the test yields NaN exactly when a group is empty is a property
  of the library. `AllLabelledOneGivesSentinel` takes it as a hypothesis.
- Floating point: survival estimates are exact rationals (`real`), so rounding and NaN
  arithmetic are not modelled.
- Patient identifiers (`bcr_patient_barcode`): they are carried through the masking but
  never reach the result, so a subject is only its time.
- The DataFrame itself: the event table is returned as a sequence of rows (day, event,
  at risk, p). The pandas chained assignment `event_table.loc[day][...] = ...` is modelled
  as the intended write into row `i`. Whether it writes through depends on the pandas
  version.
- Duplicate horizon days: `.loc[day]` would then address several rows, while the model
  writes row `i` alone. The horizon that `get_survival_curve` builds never repeats a day.
- GetSurvivalCurve: requires labels of the same length as the cohort. For other lengths
  the pandas mask raises an error, which is not modelled.
- FormatResponse: requires both survival columns to be at least as long as the days. For
  shorter columns Python raises `IndexError`, which is not modelled.
