# Predictive maintenance pipeline — a verified model

This project models the logic of a small predictive-maintenance system:

- **The feature and label pipeline** (`ml-pipeline/feature_engine.py`). It sorts machine telemetry by timestamp. For each row it adds two features over the previous four hours: the rolling mean and the rolling maximum of `sensor_A`, with 0 for an empty window. pandas bounds such a window by row position: it holds the rows before the current one that are timed at or after `t - 4h`. It derives a `will_fail` label from the next row's `is_failed` indicator. Finally it drops the indicator.
- **Two prediction services:**
  - the flexible-schema service (`backend/main.py`): a model load with a mock fallback, a `/predict` handler with a readiness gate, positional `feature_i` columns, a confidence clamp and an anomaly rule, and a registry of live monitoring connections with a broadcast;
  - the fixed-schema service (`main.py`): a readiness gate, a reindex of the request into the training column order, and an alert threshold.
- **The derivation of the two data-dependent training hyper-parameters** (`ml-pipeline/train_model.py`).
- **The dashboard's reading of a prediction reply** (`frontend/streamlit/app_streamlit.py`): probability extraction from any JSON shape, the display clamp and the three risk bands.

The files are:

| file | module | models |
|---|---|---|
| `wrappers.dfy` | `Wrappers` | `Option`, `Result` |
| `json_value.dfy` | `JsonValue` | JSON values as the services emit them and the dashboard reads them |
| `seq_stats.dfy` | `SeqStats` | sum, maximum, minimum and mean of a sequence of reals |
| `feature_engine.dfy` | `FeatureEngine` | the feature and label pipeline |
| `backend.dfy` | `Backend` | the flexible-schema service |
| `fixed_api.dfy` | `FixedApi` | the fixed-schema service |
| `training.dfy` | `Training` | the hyper-parameter derivation |
| `dashboard.dfy` | `Dashboard` | the dashboard's decoding, clamp and banding, and what it shows for each service's replies |

Modelling choices:

- Timestamps are integers in nanoseconds, the resolution of a parsed pandas datetime index; one hour is `3_600_000_000_000`.
- Sensor values, probabilities and ratios are reals.
- The pipeline and the dashboard are pure code, so they are modelled as functions.
- The connection registry and the model slot are mutated in place, so they are classes with `modifies` clauses.
- The broadcast loop is an imperative `while` loop. It is proved against a function (`LoopPass`) that runs the same index-based iteration a Python `for` loop performs over a list that shrinks under it.

Behaviour of the code that the model makes explicit:

- **The label looks back.** On hourly rows from 00:00 to 05:00 with one failure at 05:00, the code gives `will_fail` 0 at 00:00 to 03:00 and 1 at 04:00 and at 05:00. See `FeatureEngine.LabelLooksBackward`.
- **Rows sharing a timestamp.** The feature window of a row ends at the row's position, so an earlier row with the same timestamp is inside it. The label window also ends at the row's position, so a later row with the same timestamp is outside it. See `FeatureEngine.EarlierPeerLeaksIntoFeatures`.
- **`disconnect` is not idempotent.** `list.remove` raises on an absent connection.
- **The broadcast.** The code removes connections from the list it is iterating over.

## Model

| member | source | states |
|---|---|---|
| FeatureEngine.SortByTime | ml-pipeline/feature_engine.py:38 | the result is in ascending time order and is a permutation of the input rows (same multiset, same length) |
| FeatureEngine.InsertByTime | ml-pipeline/feature_engine.py:38 | inserting one row into a time-sorted sequence keeps it sorted and adds exactly that row |
| FeatureEngine.SortTable | ml-pipeline/feature_engine.py:38 | `sort_index` on a parsed table: sorted, a permutation of the rows, and every row keeps all the table's columns |
| FeatureEngine.Observe | ml-pipeline/feature_engine.py:63-87 | the windows read one observation per row, in row order, carrying its timestamp, `sensor_A` and `is_failed`; a time-sorted table gives time-sorted observations |
| FeatureEngine.ReadingsFromMembers | ml-pipeline/feature_engine.py:63-67 | a value is among the readings timed at or after `lo` exactly when some row so timed carries it |
| FeatureEngine.RollingWindowMembers | ml-pipeline/feature_engine.py:63-67 | the window of row i holds exactly the readings of the rows j < i timed at or after `t_i - 4h`, and is empty exactly when there is no such row |
| FeatureEngine.RollingMax | ml-pipeline/feature_engine.py:66-70 | `sensor_A_max_4h` is 0 for an empty window; otherwise it is the reading of a row in the window and bounds every reading there |
| FeatureEngine.RollingMean | ml-pipeline/feature_engine.py:63-70 | `sensor_A_mean_4h` is 0 for an empty window; otherwise it lies between two readings of the window |
| FeatureEngine.RollingWindowIsBlock | ml-pipeline/feature_engine.py:63-70 | on a time-sorted table the window of row i is the block of rows from the first one timed at or after `t_i - 4h` up to row i, exclusive; `sensor_A_mean_4h` is the sum of their readings, repeats included, over their count, and `sensor_A_max_4h` their largest; both are 0 for an empty block |
| FeatureEngine.FirstRowFeaturesAreZero | ml-pipeline/feature_engine.py:63-70 | the first row's window is empty, so both its features are 0 |
| FeatureEngine.FeaturesReadOnlyEarlierRows | ml-pipeline/feature_engine.py:62-67 | two tables with the same rows before position i and the same timestamp at i give row i the same features: the row itself and later rows are never read |
| FeatureEngine.EarlierPeerLeaksIntoFeatures | ml-pipeline/feature_engine.py:62-67 | two readings 5.0 and 7.0 at the same instant: the code gives the second row mean and max 5.0, the leak-free features give 0 |
| FeatureEngine.WindowReadingsMembers | ml-pipeline/feature_engine.py:62-67 | a value is among the readings timed in `[lo, hi)` exactly when some row so timed carries it |
| FeatureEngine.PastWindowMembers | ml-pipeline/feature_engine.py:62-67 | the leak-free window of row i holds exactly the readings of the rows timed in `[t_i - 4h, t_i)`, and is empty exactly when there is none |
| FeatureEngine.LeakFreeMax | ml-pipeline/feature_engine.py:62-67 | the corrected max is 0 when no row lies in `[t_i - 4h, t_i)`; otherwise it is the reading of such a row and bounds all of them |
| FeatureEngine.LeakFreeMean | ml-pipeline/feature_engine.py:62-67 | the corrected mean is 0 when no row lies in `[t_i - 4h, t_i)`; otherwise it lies between two readings of such rows |
| FeatureEngine.PastWindowIsBlock | ml-pipeline/feature_engine.py:62-67 | on a time-sorted table the corrected window of row i is the block of rows timed in `[t_i - 4h, t_i)`; the corrected mean is the sum of their readings over their count, the corrected max their largest, both 0 for an empty block |
| FeatureEngine.WindowReadingsSeeOnlyThePast | ml-pipeline/feature_engine.py:62-64 | the leak-free window is unchanged when every row at or after its timestamp is removed |
| FeatureEngine.FeaturesIgnoreCurrentAndLaterRows | ml-pipeline/feature_engine.py:62-67 | no leakage for the corrected features: two tables that agree on the rows strictly earlier than a timestamp give a row at that timestamp the same mean and max, whatever the row itself, its timestamp peers and later rows hold |
| FeatureEngine.FeaturesLeakFreeWithoutTies | ml-pipeline/feature_engine.py:62-67 | when no two rows share a timestamp, the code's features equal the leak-free ones |
| FeatureEngine.ShiftedIndicatorsMembers | ml-pipeline/feature_engine.py:81-87 | a value is among the shifted indicators of the rows timed after `lo` exactly when such a row, other than the last, has a next row carrying it |
| FeatureEngine.ShiftedIndicatorsOfBinary | ml-pipeline/feature_engine.py:81 | shifting 0/1 indicators yields 0/1 values |
| FeatureEngine.LabelWindowMembers | ml-pipeline/feature_engine.py:81-87 | the label window of row i holds exactly the next-row indicators of the rows j ≤ i, other than the last row, timed after `t_i - 24h`; they are 0/1 when the indicators are |
| FeatureEngine.MaxOfBinary | ml-pipeline/feature_engine.py:85-87 | the truncated max of 0/1 values is 1 exactly when a 1 occurs, else 0 |
| FeatureEngine.WillFail | ml-pipeline/feature_engine.py:81-87 | `will_fail[i]` is 0 when its window holds no row; with 0/1 indicators it is 0 or 1, and it is 1 exactly when some row j ≤ i with `t_j > t_i - 24h` has a next row that failed |
| FeatureEngine.WillFailCoversNextRow | ml-pipeline/feature_engine.py:81-87 | every row but the last lies in its own label window, so `will_fail[i]` ≥ the next row's truncated indicator |
| FeatureEngine.NoFailureMeansNoLabel | ml-pipeline/feature_engine.py:81-87 | when no row has failed, every label is 0 |
| FeatureEngine.FutureIndicatorsMembers | ml-pipeline/feature_engine.py:79-83 | a value is among the indicators of rows timed in `(lo, hi]` exactly when such a row carries it |
| FeatureEngine.FutureIndicatorsOfBinary | ml-pipeline/feature_engine.py:79-83 | these indicators are 0/1 when the input's are |
| FeatureEngine.ForwardLabel | ml-pipeline/feature_engine.py:79-83 | the corrected label is 0/1 on 0/1 indicators, and it is 1 exactly when a failure is recorded within the 24 hours after the row |
| FeatureEngine.LabelLooksBackward | ml-pipeline/feature_engine.py:79-87 | on six hourly rows with one failure at 05:00, the computed label is 0 at 00:00 to 03:00 and 1 at 04:00 and 05:00; the corrected label is 1 at 00:00 and 04:00 and 0 at 05:00 |
| FeatureEngine.AddColumn | ml-pipeline/feature_engine.py:63-67 | the old columns stay a prefix in their order; a new name is appended as the one extra column at the end, an existing name adds nothing |
| FeatureEngine.DropColumn | ml-pipeline/feature_engine.py:95 | the columns are the old ones except that name, never more of them; a name that is absent leaves them unchanged |
| FeatureEngine.DropColumnAppend | ml-pipeline/feature_engine.py:95 | dropping works part by part on a concatenation, so the remaining columns keep their relative order |
| FeatureEngine.DropColumnAt | ml-pipeline/feature_engine.py:95 | with distinct column labels, dropping a present column removes exactly its position and leaves the others in their order |
| FeatureEngine.OutputColumns | ml-pipeline/feature_engine.py:63-95 | the written columns are the input's plus the two features and `will_fail`, without `is_failed`; when the three names are new, they are the input columns other than `is_failed` in their order, then the mean, the max and `will_fail` |
| FeatureEngine.LabeledRow | ml-pipeline/feature_engine.py:63-95 | a written row keeps its timestamp and every other input cell; it gains the mean, max and label of its position and loses `is_failed` |
| FeatureEngine.LabeledRowKeys | ml-pipeline/feature_engine.py:63-95 | every written row has exactly the output columns |
| FeatureEngine.LabelRows | ml-pipeline/feature_engine.py:63-95 | one labelled row per sorted row, in the same order, still in time order, each with exactly the output columns |
| FeatureEngine.Prepare | ml-pipeline/feature_engine.py:38-95 | the run aborts exactly when `is_failed` or `sensor_A` is missing; otherwise the output has one row per input row, in ascending time order, each the labelled row of its sorted position, with exactly the output columns |
| Backend.ModelState.constructor | backend/main.py:29-30 | before loading, no model and not ready |
| Backend.ModelState.LoadModel | backend/main.py:32-74 | afterwards the service is ready on every path (run found and loaded, run absent, load failed, query raised); the model is the configured run's, tagged with its id, when the run table holds that id and the model loads, otherwise the mock |
| Backend.NatToString | backend/main.py:139 | the decimal rendering used in `feature_i` is a non-empty string of digits with no leading zero whose value is n |
| Backend.FeatureNamesDistinct | backend/main.py:139 | different positions get different `feature_i` labels |
| Backend.BuildFrame | backend/main.py:137-143 | non-empty features become one row under `feature_0 .. feature_{n-1}` in request order; otherwise ten random values under the labels 0..9 |
| Backend.Confidence | backend/main.py:155 | the confidence always lies in [0.7, 0.95]; it equals p inside that range and is the nearer bound outside it |
| Backend.ConfidenceMonotone | backend/main.py:155 | the confidence never decreases as p grows |
| Backend.Predict | backend/main.py:126-167 | not ready gives the error result without scoring; a scoring exception or an empty score array gives an error result; otherwise `prediction` is the first score, its confidence is clamped, `anomaly` holds exactly when p > 0.8 (strict), and `features_used` is n, or 10 for no features; the confidence is the clamp of the prediction, and an empty score array gives the `list index out of range` error |
| Backend.ResponseJson | backend/main.py:157-167 | a score becomes an object with exactly its six fields and `status: "success"`; an error becomes an object with exactly `error` and a `null` `prediction` |
| Backend.IndexOf | backend/main.py:179 | the index found holds the connection and no earlier entry does |
| Backend.RemoveFirst | backend/main.py:179 | `list.remove` takes out the first occurrence: the result is the list before that position followed by the list after it, so the rest keep their order |
| Backend.RemoveFirstInDistinct | backend/main.py:179 | in a duplicate-free list, removing the entry at a position removes that very entry |
| Backend.LoopPassRemovesOnlyFailed | backend/main.py:184-189 | the index-based loop only sends to and keeps entries of its list, and an entry is gone from the final list only when it was sent to and its send failed |
| Backend.Pass | backend/main.py:184-189 | the skipping pass only sends to and keeps entries of its input, never more than it has |
| Backend.LoopPassIsPass | backend/main.py:184-189 | on a duplicate-free list, the index-based loop equals the skipping pass: the list ends as the kept entries, and the entries sent to are the pass's |
| Backend.PassIsSurvivors | backend/main.py:184-189 | on a duplicate-free list, the pass keeps exactly the list minus the entries that were sent to and failed, in their order |
| Backend.PassSkipsAfterFailure | backend/main.py:184-189 | a connection is removed exactly when it was sent to and its send failed; the first entry is always sent to; an entry is sent to exactly when its predecessor was not sent to-and-failed, so the entry right after a removed one is skipped |
| Backend.BroadcastSkipsSuccessor | backend/main.py:184-189 | with two connections whose first send fails, only the first is sent to and the second survives untried |
| Backend.ConnectionManager.constructor | backend/main.py:171-172 | the registry starts empty |
| Backend.ConnectionManager.Connect | backend/main.py:174-176 | exactly the new connection is appended at the end |
| Backend.ConnectionManager.Disconnect | backend/main.py:178-179 | the first occurrence is removed; on an absent connection the call raises and nothing changes |
| Backend.ConnectionManager.Broadcast | backend/main.py:184-189 | the final list and the entries sent to are those of the index-based pass over the list as it shrinks |
| Backend.Survivors | backend/main.py:184-189 | an entry is kept exactly when its send succeeds, and only such entries are kept |
| Backend.SurvivorsAppend | backend/main.py:184-189 | the filter works part by part on a concatenation, so the surviving connections keep their relative order and repeats |
| Backend.ConnectionManager.BroadcastToAll | backend/main.py:184-189 | the corrected broadcast sends to every connection and keeps exactly those whose send succeeded, in order |
| FixedApi.RequestFrame | main.py:16-21 | the request becomes a one-row frame whose distinct columns are the four declared field names in order, each holding that field's value |
| FixedApi.Lookup | main.py:69 | a column label is found exactly when present, and then yields the cell under its first occurrence |
| FixedApi.Reindex | main.py:69 | for a frame with distinct column labels, the result has exactly the asked-for columns in that order; each cell is the original cell under that label, or 0 when missing |
| FixedApi.ReindexDropsOtherColumns | main.py:69 | columns not asked for have no effect on the result |
| FixedApi.ReindexFillsAndDrops | main.py:69 | the row `b = 2, d = 4` reindexed to `a, b, c` gives `0, 2, 0` |
| FixedApi.ReindexToOwnColumns | main.py:63-69 | reindexing a frame to its own duplicate-free columns changes nothing |
| FixedApi.ValidatedRequestIsOnlyReordered | main.py:63-69 | the request schema declares all four fields, so reindexing a validated request fills nothing and only reorders |
| FixedApi.Predict | main.py:53-81 | no model gives the not-ready error with 500 and no score; otherwise the probability the classifier assigns to the request's four values in training order is reported unchanged, with alert `"True"` exactly when it is ≥ 0.5 and `"False"` exactly when it is below |
| FixedApi.ReplyJson | main.py:59-81 | a success body is an object with exactly `status: "success"`, `failure_probability` and `alert`; the not-ready pair is encoded as a two-element list of the `error` object and 500 |
| Training.LabelSum | ml-pipeline/train_model.py:49 | on 0/1 labels the sum lies in `[0, n]`, is 0 exactly when no label is positive and n exactly when all are |
| Training.PositiveRatio | ml-pipeline/train_model.py:49 | the ratio times the number of labels is the label sum; on 0/1 labels it lies in [0, 1] |
| Training.RatioIsShare | ml-pipeline/train_model.py:49 | on 0/1 labels the positive ratio lies in [0, 1], is 0 exactly when there is no positive and 1 exactly when all labels are positive |
| Training.ClampBaseScore | ml-pipeline/train_model.py:59 | the clamp lies in [0.01, 0.99], keeps a ratio inside that range and gives the nearer bound outside it |
| Training.BaseScore | ml-pipeline/train_model.py:50-59 | ratio 0 gives 0.01, ratio 1 gives 0.99, a ratio in [0.01, 0.99] is kept, and lower or higher ratios are clamped; always within [0.01, 0.99] |
| Training.SpecialCasesAgreeWithClamp | ml-pipeline/train_model.py:50-59 | the explicit cases for 0 and 1 give what the clamp alone would give |
| Training.ScalePosWeight | ml-pipeline/train_model.py:72-77 | always positive; 1.0 unless 0 < ratio < 1, and then `w · ratio = 1 - ratio` |
| Training.WeightBalancesClasses | ml-pipeline/train_model.py:76-77 | with both classes present, the positives weighted by `scale_pos_weight` weigh as much as the negatives |
| Training.Hyperparameters | ml-pipeline/train_model.py:63-77 | the settings carry the derived base score and class weight, which are always valid (0 < base score < 1, weight > 0) |
| Training.OnlyDerivedSettingsDependOnData | ml-pipeline/train_model.py:63-73 | every setting other than the base score and the class weight is the same for all data |
| Dashboard.ExtractProbability | frontend/streamlit/app_streamlit.py:22-42 | for a list whose first element is a number, or for a bare number or boolean, the result is that number as a float; for an empty list, a list with any other first element, `null` or a string it is 0; for a list whose first element is an object, it is that object's `failure_probability`, or 0 when absent; only values read out of an object pass through unchanged |
| Dashboard.FirstPresent | frontend/streamlit/app_streamlit.py:26-28 | the value under the first present key, or the default when none is present |
| Dashboard.ObjectLookupIsPrecedenceSearch | frontend/streamlit/app_streamlit.py:24-28 | for an object, the nested `get` chain returns the value of the first present key among `failure_probability`, `probability` and `prediction`, else 0 |
| Dashboard.NullPredictionIsReturned | frontend/streamlit/app_streamlit.py:26-28 | a present `prediction: null` is returned as `null`; the default applies only to absent keys |
| Dashboard.ClampUnit | frontend/streamlit/app_streamlit.py:17-20 | the shown probability lies in [0, 1], equals the input inside that range and is the nearer bound outside it |
| Dashboard.RiskBand | frontend/streamlit/app_streamlit.py:140-167 | critical exactly when p > 0.7 (the configured threshold), medium exactly when 0.4 < p ≤ 0.7, normal exactly when p ≤ 0.4 |
| Dashboard.BandMonotone | frontend/streamlit/app_streamlit.py:140-167 | a higher probability never gets a milder band |
| Dashboard.Render | frontend/streamlit/app_streamlit.py:127-167 | the page fails exactly when the extracted value is not a number; otherwise it shows the band of the value and the value clamped to [0, 1] |
| Dashboard.BackendScoreIsShown | frontend/streamlit/app_streamlit.py:24-28 | a score from the flexible service is found under `prediction` and shown with its band |
| Dashboard.BackendErrorCrashesDisplay | frontend/streamlit/app_streamlit.py:24-28 | the flexible service's error body carries `prediction: null`, which the dashboard extracts and cannot compare, so the page fails |
| Dashboard.FixedScoreIsShown | frontend/streamlit/app_streamlit.py:24-28 | a score from the fixed-schema service is found under `failure_probability` and shown with its band |
| Dashboard.NotReadyShownAsNormal | frontend/streamlit/app_streamlit.py:29-32 | the fixed-schema service's not-ready pair arrives as a list whose first element lacks `failure_probability`, so the dashboard shows normal operation at 0% |

## Findings

| source | as written | input that shows it | evidently intended | confidence | as-written member | corrected member |
|---|---|---|---|---|---|---|
| ml-pipeline/feature_engine.py:79-87 | `shift(-1)` followed by a time-based `rolling('24H')`, which is a trailing window `(t - 24h, t]`: the label is the max of the next-row indicators over rows up to 24 h in the past | hourly rows 00:00 to 05:00 with `is_failed = 1` only at 05:00: `will_fail` is 0 at 00:00 to 03:00 and 1 at 04:00 and 05:00 | the comments promise a look ahead: 1 when a failure occurs within the next 24 hours | high (not executed) | FeatureEngine.LabelLooksBackward | FeatureEngine.ForwardLabel |
| ml-pipeline/feature_engine.py:62-67 | `rolling(..., closed='left')` ends each row's window at the row's position, so earlier rows with the same timestamp are inside it | two rows at the same instant with `sensor_A` 5.0 then 7.0: the second row gets mean and max 5.0 | the comment promises that only past data is used: only rows timed strictly before the row count | medium (not executed) | FeatureEngine.EarlierPeerLeaksIntoFeatures | FeatureEngine.FeaturesIgnoreCurrentAndLaterRows |
| backend/main.py:184-189 | `broadcast` removes a failed connection from `active_connections` while a `for` loop iterates over that list | connections `[1, 2]` where the send to 1 raises: 2 is never sent to | send to every connection and drop exactly those whose send raised | high (not executed) | Backend.BroadcastSkipsSuccessor | Backend.ConnectionManager.BroadcastToAll |

About the corrected members:

- `FeatureEngine.ForwardLabel` is the corrected label. `FeatureEngine.LeakFreeMean` and `FeatureEngine.LeakFreeMax` are the corrected features. `FeatureEngine.FeaturesLeakFreeWithoutTies` shows that they agree with the code's features when no two rows share a timestamp.
- `FeatureEngine.Prepare` keeps the features and the label as the code computes them, because the written table is what the training step consumes.
- `Backend.ConnectionManager.Broadcast` keeps the as-written loop next to `BroadcastToAll`. `Backend.LoopPassIsPass` and `Backend.PassSkipsAfterFailure` state precisely what that loop does.

## Left out

- FeatureEngine.SortByTime: modelled as a stable insertion sort, while pandas' default `sort_index` is not stable. With ties the model keeps the input order. That order decides which rows fall in each window, which row counts as "next" for `shift(-1)`, and the order of the written rows.
- The windows are defined on any sequence of rows, while pandas rejects a time-based window over an unsorted index. `FeatureEngine.Prepare` always sorts first.
- NaN values in the input, and the `fillna(0)` of cells other than the two features and the label. Every cell is a real.
- The floating-point rounding of the mean, the clamps and the ratio. Everything is computed over reals.
- CSV reading and writing, datetime parsing, prints and `sys.exit`. The parsed table is the input and the result table is the output. A missing timestamp column is not modelled.
- The registry queries and model loading in `backend/main.py` (sqlite, the model loader). They are parameters: the run table as the query sees it, and a loader function.
- The loader in `main.py` (`load_model`). The loaded classifier is an optional parameter.
- The mock model's random predictions, the random feature row and the clock. They are parameters of `Backend.Predict`.
- The websocket endpoint, `accept`, `send_text` and the monitoring loop with its sleep. Whether a send raises is the predicate `sendFails`.
- Backend.ConnectionManager.Broadcast: the pass is modelled as uninterrupted. At each `await connection.send_text` other `/ws` tasks may run `connect` or `disconnect` and change the list mid-pass; those interleavings are not modelled.
- FixedApi.Reindex: requires distinct column labels, where pandas raises on duplicates. The handler always builds its frame from a dict, so its labels are distinct.
- `send_personal_message`. It is a single `send_text` with no state.
- The status and database endpoints of `backend/main.py`. They are file-system and database I/O.
- Backend.Predict: a `features` value that is not a list is not modelled; the request's features are a sequence of reals.
- FixedApi.Predict: an exception raised by `predict_proba` is not modelled; in the service it escapes the handler as a server error.
- Training.WeightBalancesClasses: stated over real counts of positives and labels rather than over a label sequence.
- XGBoost training, the train/test split, metrics and experiment logging.
- The Streamlit layout, the sliders, the HTTP call and its error handling, and the `.1f` percentage formatting. Only the clamp before formatting is kept.
