# BiasLens core in Dafny

BiasLens checks a tabular dataset and a model's predictions for bias
against a sensitive attribute such as gender. This project models its core
and proves properties about it:

- **Frontend** (`frontend/script.js`): `analyzeDataset` checks that a file
  is chosen and that the attribute is not blank, posts both, and shows
  either the rendered result or the "backend not reachable" message.
  `renderResult` maps `bias_detected` to a risk score, a CSS class and a
  label, and lists one item per group. The page is reduced to the sequence
  of effects one click has: an alert, a write to the result area, or the
  POST. The outcome of the fetch is an input.
- **`/analyze` endpoint** (`backend/app.py`): requests are checked in a
  fixed order. The response holds the normalised value counts of the
  sensitive column and the disparate impact (smallest share over largest).
  Every exception becomes a 500 carrying its message.
- **Dataset bias** (`backend/bias_analysis.py`): the percentage of rows per
  group. The dataset is flagged when some group holds more than 70 per cent.
- **Model evaluation** (`backend/model_evaluation.py`): accuracy per group,
  the gap between the best and worst group, and a flag when the gap
  exceeds 0.1.
- **Mitigation** (`backend/mitigation.py`): up to three recommendations in
  a fixed order, with a fallback when none applies.
- **Explainability** (`backend/explainability.py`): each feature of the
  right length is correlated with the sensitive attribute. The feature
  with the largest absolute correlation is named the main bias driver.

Modules:

- `Common`: Option and Result, counting, sums over an enumeration of map
  keys, and Python's `min`/`max` over dict values as loops.
- `Frames`: the parsed table, its columns, and pandas'
  `value_counts(normalize=True)`.
- One module per core source file: `App`, `BiasAnalysis`,
  `ModelEvaluation`, `Mitigation`, `Explainability`, `Frontend`.

How the model represents the source:

- A Python dict whose order the code observes is a sequence of pairs:
  - the correlations, since `max` keeps the first key on ties;
  - the distribution the frontend lists with `for...in`.
- Other dicts are maps. Sums over them are stated for every duplicate-free
  enumeration of their keys, so they hold whatever order the dict uses.
- A Python exception is a `Failure` carrying the error, or a 500 response
  where the endpoint catches it.

The risk thresholds 0.6 and 0.8 for disparate impact, and 0.1 and 0.2 for
statistical parity, do not appear in any of the modelled files. The model
follows the code: the frontend's risk depends only on `bias_detected`.

## Model

| member | source | states |
|---|---|---|
| Common.Count | backend/app.py:30 | the number of occurrences of a value is at most the length, and positive exactly when the value occurs |
| Common.MaxValue | backend/model_evaluation.py:14 | the loop over a non-empty dict's values returns a value of the dict that no value exceeds |
| Common.MinValue | backend/model_evaluation.py:14 | the loop over a non-empty dict's values returns a value of the dict that no value undercuts |
| Frames.ColumnIndex | backend/app.py:24 | the first position of a column name that is in the header |
| Frames.Column | backend/app.py:30 | `df[sensitive]` has one cell per row, each taken from that column's position |
| Frames.Share | backend/app.py:30 | a value's share lies in [0,1] and is positive exactly when the value occurs |
| Frames.Shares | backend/app.py:30 | `value_counts(normalize=True)` has exactly the distinct values as keys, each mapped to its share, which lies in (0,1] |
| Frames.SharesSumToOne | backend/app.py:30 | the shares of a non-empty column add up to 1, in any order of the groups |
| Frames.MinShare | backend/app.py:37 | `min(counts.values())` is the smallest share of the column |
| Frames.MaxShare | backend/app.py:37 | `max(counts.values())` is the largest share of the column |
| App.AnalyzeBias | backend/app.py:9-41 | checks run in order: missing dataset 400, then missing or empty attribute 400, then a read_csv error 500, then unknown column 400 naming it, then no rows 500 from `min`. The response is 200 exactly when the column exists and has rows. It then carries status "success", echoes the attribute and the row count; the metrics are count over rows for exactly the distinct values, each in (0,1]; the disparate impact lies in (0,1] |
| App.MetricsSumToOne | backend/app.py:30-36 | on success the bias metrics add up to 1 |
| App.DisparateImpactIsOneIffBalanced | backend/app.py:37 | the disparate impact is the smallest metric over the largest, and equals 1 exactly when all groups are equally large |
| BiasAnalysis.Distribution | backend/bias_analysis.py:2 | each distinct value maps to 100 times its share, which lies in (0,100] |
| BiasAnalysis.AboveThresholdIff | backend/bias_analysis.py:3 | a percentage is above 70 exactly when ten times the count exceeds seven times the rows |
| BiasAnalysis.AnalyzeDatasetBias | backend/bias_analysis.py:1-9 | a missing column fails with its name. Otherwise the distribution is the percentage map. The flag holds exactly when some value holds strictly more than 70 per cent of the rows. The message is "Bias detected" exactly when flagged, "Dataset balanced" exactly when not |
| BiasAnalysis.SumOfPercentages | backend/bias_analysis.py:2 | summed over any keys of the column, the percentages are 100 times the summed shares |
| BiasAnalysis.DistributionSumsTo100 | backend/bias_analysis.py:2 | the percentages of a non-empty column add up to 100, in any order |
| BiasAnalysis.SingleValueFlagged | backend/bias_analysis.py:2-3 | a column with one value has that value at 100 per cent and is flagged |
| BiasAnalysis.ExactlySeventyNotFlagged | backend/bias_analysis.py:3 | a group at exactly 70 per cent is not flagged, and neither is any other group |
| BiasAnalysis.EmptyTableBalanced | backend/bias_analysis.py:2-8 | a table without rows gives an empty distribution and "Dataset balanced" |
| ModelEvaluation.Positions | backend/model_evaluation.py:7 | every listed index is in range and holds the group |
| ModelEvaluation.PositionsComplete | backend/model_evaluation.py:7 | every index holding the group is listed |
| ModelEvaluation.PositionsCount | backend/model_evaluation.py:7 | the group has as many indices as occurrences |
| ModelEvaluation.Pick | backend/model_evaluation.py:9-10 | picking by an index list gives, at each position, the label at that index |
| ModelEvaluation.AccuracyScore | backend/model_evaluation.py:8-11 | `accuracy_score` lies in [0,1] and is 1 exactly when the predictions equal the truth |
| ModelEvaluation.AgreementsAll | backend/model_evaluation.py:8-11 | two label lists agree at every position exactly when they are equal |
| ModelEvaluation.PickAgreements | backend/model_evaluation.py:8-11 | the labels picked at an index list agree as often as the two lists agree at those indices |
| ModelEvaluation.PositionsHits | backend/model_evaluation.py:7-11 | counting agreements at the group's indices gives the group's correct predictions |
| ModelEvaluation.PickedAgreements | backend/model_evaluation.py:7-11 | the picked labels agree exactly at the group's correct predictions |
| ModelEvaluation.GroupAccuracy | backend/model_evaluation.py:7-12 | a group's accuracy lies in [0,1] |
| ModelEvaluation.GroupAccuracyIsHitRate | backend/model_evaluation.py:7-11 | a group's accuracy is its number of correct predictions over its number of members |
| ModelEvaluation.GroupAccuracies | backend/model_evaluation.py:6-12 | the loop over `set(groups)` stores exactly one entry per distinct group, holding that group's accuracy |
| ModelEvaluation.GapBounds | backend/model_evaluation.py:14 | the gap between the largest and smallest of accuracies in [0,1] lies in [0,1], and is 0 when there is one group |
| ModelEvaluation.EvaluateModelBias | backend/model_evaluation.py:3-20 | empty groups fail as `max` does. Otherwise there is one key per distinct group, holding that group's accuracy in [0,1]. The gap is the largest accuracy minus the smallest and lies in [0,1]. Bias is flagged exactly when the gap exceeds 0.1. A single group gives gap 0 |
| Mitigation.RankOfEachRecommendation | backend/mitigation.py:4-14 | the four recommendation kinds are distinct and ranked rebalance, retrain, proxy, fallback |
| Mitigation.MitigationSuggestions | backend/mitigation.py:1-16 | "Rebalance" appears exactly when dataset_bias is true. "Retrain" appears exactly when the gap, defaulting to 0, exceeds 0.1. The proxy recommendation names the feature and appears exactly when the feature is non-empty. The fallback appears exactly when no rule fired, and then alone. There are 1 to 3 recommendations, strictly in rule order |
| Explainability.CorrelationsExact | backend/explainability.py:7-12 | each collected pair is (name, corr(values, sensitive)) for a feature of matching length, and every such feature is collected |
| Explainability.MismatchedFeatureSkipped | backend/explainability.py:9-10 | a feature whose length differs from the sensitive attribute's gets no correlation |
| Explainability.ArgMaxAbs | backend/explainability.py:14 | the selected entry has the largest absolute value, and every earlier entry's is strictly smaller |
| Explainability.ExplainBias | backend/explainability.py:3-20 | fails exactly when no feature has the sensitive attribute's length. Otherwise it returns the collected correlations, the first key of largest absolute correlation as driver, and the explanation naming it |
| Frontend.LeadingSpace | frontend/script.js:34 | the count of leading characters `trim()` drops: all of them are ECMAScript white space and the next character is not |
| Frontend.TrailingSpace | frontend/script.js:34 | the count of trailing characters `trim()` drops: all of them are ECMAScript white space and the character before them is not |
| Frontend.TrimIsSlice | frontend/script.js:34 | `trim()` gives a contiguous slice of its input, and everything dropped before and after it is white space |
| Frontend.TrimEnds | frontend/script.js:34 | a non-empty trimmed string neither starts nor ends with white space |
| Frontend.TrimBlank | frontend/script.js:34 | the trimmed string is empty exactly when the input is all white space |
| Frontend.TrimSpec | frontend/script.js:34 | `trim()` drops exactly the leading and trailing white space: it keeps a contiguous slice, everything dropped is white space, the slice neither starts nor ends with white space, and it is empty exactly when the input is all white space |
| Frontend.BlankAttributeRejected | frontend/script.js:34-37 | an attribute of white space only trims to the empty string |
| Frontend.RiskOf | frontend/script.js:79-81 | score 80, class "high" and text "High Bias Risk" each hold exactly when bias_detected; otherwise 20, "low", "Low Bias Risk" |
| Frontend.RiskPartsAgree | frontend/script.js:79-81 | the score alone, or the class alone, determines the whole risk |
| Frontend.RenderResult | frontend/script.js:76-108 | status is the message, the risk follows bias_detected, the bar width is the score, and there is one item per distribution entry, in order |
| Frontend.Settle | frontend/script.js:54-70 | the result is rendered exactly when the reply is ok and its body parses, and is then what `renderResult` produces; every other outcome, a failed fetch included, shows "backend not reachable" |
| Frontend.AnalyzeDataset | frontend/script.js:21-71 | no file alerts and stops whatever the attribute; a blank attribute alerts and stops. A POST is made exactly when both checks pass: loading first, then the POST of the first file as "file" and the trimmed attribute as "sensitive". A result is rendered only for an ok reply whose body parses; any other outcome shows "backend not reachable" |

## Left out

- Browser plumbing: DOM lookups, the click handler, `console` output, the HTML markup and the Promise chain. Alerts, result-area writes and the POST are abstract effects; the fetch outcome is an input.
- Flask routing, CORS, `jsonify` and server start-up. The request is a record and the response a body and status.
- `pd.read_csv` parsing and dtype inference. A dataset is an already-parsed rectangular table of string cells, or the reason it could not be read.
- pandas dropping missing values (NaN) in `value_counts`: every cell counts.
- `np.corrcoef`. The parameter `corr` stands for the whole of `round(float(np.corrcoef(values, sensitive)[0, 1]), 3)`, and nothing is assumed about it. NaN results are not modelled. Ties that the rounding creates are still covered by the first-key rule of `ArgMaxAbs`.
- Float rounding (`round(..., 2)`, `round(..., 3)`, `toFixed(2)`). Every value is stated exactly over reals.
- ModelEvaluation.EvaluateModelBias: the source stores each group accuracy rounded to three decimals, so its gap is taken between rounded values. The model takes the gap between exact accuracies, so near 0.1 the flag can differ. Example: one group at 1/1 and one at 188/209 gives an exact gap of about 0.1005, which is flagged. The source's rounded gap is 1.0 - 0.9, which is just under 0.1 in floating point, and is not flagged.
- The order in which JavaScript's `for...in` visits integer-like keys. The rendered items follow the order of the received pairs.
- Frontend.LeadingSpace: characters are Unicode code points, not UTF-16 code units.
- The frontend and the backend do not agree with each other. The frontend posts field `file` to `/dataset-bias` and reads `distribution`, `bias_detected` and `message`. `backend/app.py` serves `/analyze`, reads field `dataset` and returns `bias_metrics`. No end-to-end property across the two is stated.
- Frontend.RenderResult: only well-formed payloads are modelled (a boolean flag, a string message, numeric group values). JavaScript renders many other shapes anyway: a missing `bias_detected` gives the low risk, a missing `distribution` gives no items, and a missing `message` prints "undefined". Only a `null` body, or a group value without `toFixed`, throws into the "not reachable" branch. A truthy flag that is not a boolean is reduced to `true`.
- Mitigation.MitigationSuggestions: an `accuracy_gap` that is present but null makes the comparison raise. Truthiness of non-boolean `dataset_bias` and `proxy_feature` values is reduced to a boolean and a string.
- ModelEvaluation.EvaluateModelBias: requires `y_true` and `y_pred` to be at least as long as `groups`. Otherwise the source raises IndexError, which is not modelled.
- The exact text of the `min`/`max` error differs between Python versions. The model uses "min() arg is an empty sequence" and "max() arg is an empty sequence".
- BiasAnalysis.AnalyzeDatasetBias: the KeyError for a missing column is modelled as a failure carrying the column name, not Python's quoted rendering of it.
