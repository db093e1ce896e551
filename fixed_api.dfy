/** The fixed-schema prediction service (main.py): a request carries exactly
    the four features the model was trained on; the handler refuses while no
    model is loaded, otherwise lines the request up with the training column
    order (missing columns filled with 0, unknown ones dropped), scores it and
    raises an alert from probability 0.5 upwards.

    The registry load at start-up is outside the model: the loaded classifier
    arrives as an optional parameter. */
module FixedApi {
  import opened Wrappers
  import opened JsonValue

  const SENSOR_COLUMN: string := "sensor_A"
  const ERROR_COUNT_COLUMN: string := "error_count"
  const MEAN_COLUMN: string := "sensor_A_mean_4h"
  const MAX_COLUMN: string := "sensor_A_max_4h"

  /** The training column order. */
  const EXPECTED_COLUMNS: seq<string> := [SENSOR_COLUMN, ERROR_COUNT_COLUMN, MEAN_COLUMN, MAX_COLUMN]

  const ALERT_THRESHOLD: real := 0.5
  const NOT_READY_MESSAGE: string := "Model not loaded. API is not ready."
  const NOT_READY_STATUS: nat := 500

  /** The validated request body. */
  datatype PredictionRequest = PredictionRequest(
    sensorA: real, errorCount: int, sensorAMean4h: real, sensorAMax4h: real)

  /** A one-row data frame: column labels and the row's cells, in order. */
  datatype Frame = Frame(columns: seq<string>, row: seq<real>)

  predicate WellFormed(f: Frame)
  {
    |f.columns| == |f.row|
  }

  /** No two columns share a label, as in a frame built from a dict. */
  predicate UniqueColumns(f: Frame)
  {
    forall i, j :: 0 <= i < j < |f.columns| ==> f.columns[i] != f.columns[j]
  }

  /** The frame built from the request's fields, in declaration order: one
      column per field, each under the field's name and holding the field's
      value. */
  function RequestFrame(req: PredictionRequest): (f: Frame)
    ensures WellFormed(f) && UniqueColumns(f)
    ensures f.columns == EXPECTED_COLUMNS
    ensures Lookup(f, SENSOR_COLUMN) == Some(req.sensorA)
    ensures Lookup(f, ERROR_COUNT_COLUMN) == Some(req.errorCount as real)
    ensures Lookup(f, MEAN_COLUMN) == Some(req.sensorAMean4h)
    ensures Lookup(f, MAX_COLUMN) == Some(req.sensorAMax4h)
  {
    var f := Frame(EXPECTED_COLUMNS, [req.sensorA, req.errorCount as real, req.sensorAMean4h, req.sensorAMax4h]);
    assert f.columns[1] !in f.columns[..1];
    assert f.columns[2] !in f.columns[..2];
    assert f.columns[3] !in f.columns[..3];
    f
  }

  /** The cell under the first column labelled `name`, if there is one. */
  function Lookup(f: Frame, name: string): (v: Option<real>)
    requires WellFormed(f)
    ensures v.None? <==> name !in f.columns
    ensures v.Some? ==> exists k :: 0 <= k < |f.columns| && f.columns[k] == name && f.row[k] == v.value
    ensures forall k :: (0 <= k < |f.columns| && f.columns[k] == name && name !in f.columns[..k]) ==>
                          v == Some(f.row[k])
    decreases |f.columns|
  {
    if f.columns == [] then None
    else if f.columns[0] == name then Some(f.row[0])
    else
      var rest := Lookup(Frame(f.columns[1..], f.row[1..]), name);
      assert forall k :: 1 <= k < |f.columns| ==> f.columns[1..][k - 1] == f.columns[k];
      rest
  }

  /** `reindex(columns=..., fill_value=0)`: a frame with exactly the given
      columns, in the given order; each cell is the original cell under that
      label, or 0 where the label is missing. Columns not asked for are
      dropped. */
  function Reindex(f: Frame, columns: seq<string>): (g: Frame)
    requires WellFormed(f) && UniqueColumns(f)
    ensures WellFormed(g) && g.columns == columns
    ensures forall i :: 0 <= i < |columns| ==>
              g.row[i] == (if columns[i] in f.columns then Lookup(f, columns[i]).value else 0.0)
    decreases |columns|
  {
    if columns == [] then Frame([], [])
    else
      var cell := match Lookup(f, columns[0]) case Some(v) => v case None => 0.0;
      var rest := Reindex(f, columns[1..]);
      assert forall i :: 1 <= i < |columns| ==> columns[1..][i - 1] == columns[i];
      Frame(columns, [cell] + rest.row)
  }

  /** Only the cells under the asked-for labels matter: two frames that agree
      on those give the same reindexed frame, whatever else they carry. */
  lemma {:induction false} ReindexDropsOtherColumns(f: Frame, h: Frame, columns: seq<string>)
    requires WellFormed(f) && WellFormed(h) && UniqueColumns(f) && UniqueColumns(h)
    requires forall i :: 0 <= i < |columns| ==> Lookup(f, columns[i]) == Lookup(h, columns[i])
    ensures Reindex(f, columns) == Reindex(h, columns)
    decreases |columns|
  {
    if columns != [] {
      ReindexDropsOtherColumns(f, h, columns[1..]);
    }
  }

  /** The example of the pandas documentation in small: reindexing the row
      `b = 2, d = 4` to the columns `a, b, c` gives `0, 2, 0`. */
  lemma ReindexFillsAndDrops()
    ensures Reindex(Frame(["b", "d"], [2.0, 4.0]), ["a", "b", "c"]) == Frame(["a", "b", "c"], [0.0, 2.0, 0.0])
  {
    var f := Frame(["b", "d"], [2.0, 4.0]);
    assert Lookup(f, "b") == Some(2.0);
    assert "a" !in f.columns && "c" !in f.columns;
  }

  /** Lining a frame up with its own columns changes nothing. */
  lemma ReindexToOwnColumns(f: Frame)
    requires WellFormed(f) && UniqueColumns(f)
    ensures Reindex(f, f.columns) == f
  {
    var g := Reindex(f, f.columns);
    forall i | 0 <= i < |f.columns| ensures g.row[i] == f.row[i] {
      assert f.columns[i] !in f.columns[..i];
    }
  }

  /** A validated request already carries all four fields, so lining it up
      with the training order fills nothing: the model sees the request's
      own values, in the training order. */
  lemma ValidatedRequestIsOnlyReordered(req: PredictionRequest)
    ensures Reindex(RequestFrame(req), EXPECTED_COLUMNS) == RequestFrame(req)
  {
    ReindexToOwnColumns(RequestFrame(req));
  }

  /** The loaded classifier: the positive-class probability of a row given
      in the training column order. */
  type Classifier = seq<real> -> real

  datatype Reply =
    | NotReady(error: string, status: nat)
    | Answered(failureProbability: real, alert: string)

  /** `predict`: with no model, the not-ready pair; otherwise the
      positive-class probability of the lined-up row, reported unchanged,
      with the alert set exactly when it reaches the threshold. */
  function Predict(model: Option<Classifier>, req: PredictionRequest): (r: Reply)
    ensures model.None? <==> r.NotReady?
    ensures r.NotReady? ==> r == NotReady(NOT_READY_MESSAGE, NOT_READY_STATUS)
    ensures r.Answered? ==>
      && r.failureProbability == model.value([req.sensorA, req.errorCount as real, req.sensorAMean4h, req.sensorAMax4h])
      && (r.alert == "True" <==> r.failureProbability >= ALERT_THRESHOLD)
      && (r.alert == "False" <==> r.failureProbability < ALERT_THRESHOLD)
  {
    match model
    case None => NotReady(NOT_READY_MESSAGE, NOT_READY_STATUS)
    case Some(classify) =>
      var frame := Reindex(RequestFrame(req), EXPECTED_COLUMNS);
      ValidatedRequestIsOnlyReordered(req);
      var p := classify(frame.row);
      Answered(p, if p >= ALERT_THRESHOLD then "True" else "False")
  }

  /** The JSON body. The not-ready pair is a tuple, which the framework
      encodes as a two-element list rather than as a status code. */
  function ReplyJson(r: Reply): (j: Json)
    ensures r.Answered? ==>
              && j.JObj? && j.fields.Keys == {"status", "failure_probability", "alert"}
              && j.fields["status"] == JStr("success")
              && j.fields["failure_probability"] == JNum(r.failureProbability)
              && j.fields["alert"] == JStr(r.alert)
    ensures r.NotReady? ==>
              && j.JArr? && |j.items| == 2
              && j.items[0] == JObj(map["error" := JStr(r.error)])
              && j.items[1] == JNum(r.status as real)
  {
    match r
    case NotReady(e, s) => JArr([JObj(map["error" := JStr(e)]), JNum(s as real)])
    case Answered(p, a) =>
      JObj(map["status" := JStr("success"), "failure_probability" := JNum(p), "alert" := JStr(a)])
  }
}
