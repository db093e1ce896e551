/** The monitoring dashboard's reading of a prediction reply
    (frontend/streamlit/app_streamlit.py): the probability is dug out of
    whatever JSON shape came back, compared against the risk bands and shown
    clamped to [0, 1].

    The page layout, the input sliders and the HTTP call are outside the
    model; the reply arrives as a JSON value. */
module Dashboard {
  import opened JsonValue
  import Backend
  import FixedApi

  const FAILURE_THRESHOLD: real := 0.7
  const MEDIUM_THRESHOLD: real := 0.4

  /** The keys a reply object is searched for, in order of precedence. */
  const PROBABILITY_KEYS: seq<string> := ["failure_probability", "probability", "prediction"]

  /** `isinstance(x, (int, float))`: a JSON boolean is a Python `bool`,
      which is an `int`. */
  predicate IsNumber(j: Json)
  {
    j.JNum? || j.JBool?
  }

  /** `float(x)` of a number. */
  function AsFloat(j: Json): real
    requires IsNumber(j)
  {
    match j
    case JNum(n) => n
    case JBool(b) => if b then 1.0 else 0.0
  }

  /** `d.get(key, default)`: a key that is present yields its value, even
      when that value is `null`. */
  function Get(fields: map<string, Json>, key: string, default: Json): Json
  {
    if key in fields then fields[key] else default
  }

  /** `extract_probability`. The result is a number whenever the reply is
      not an object and not a list starting with an object; only values
      read out of an object are passed through unchanged, whatever they are. */
  function ExtractProbability(result: Json): (p: Json)
    ensures !result.JObj? && !(result.JArr? && |result.items| > 0 && result.items[0].JObj?) ==>
              p.JNum?
    ensures result.JArr? && |result.items| > 0 && IsNumber(result.items[0]) ==>
              p == JNum(AsFloat(result.items[0]))
    ensures result.JArr? && (|result.items| == 0 || !(result.items[0].JObj? || IsNumber(result.items[0]))) ==>
              p == JNum(0.0)
    ensures IsNumber(result) ==> p == JNum(AsFloat(result))
    ensures (result.JNull? || result.JStr?) ==> p == JNum(0.0)
    ensures result.JArr? && |result.items| > 0 && result.items[0].JObj? ==>
              p == FirstPresent(result.items[0].fields, ["failure_probability"], JNum(0.0))
  {
    match result
    case JObj(fields) =>
      Get(fields, "failure_probability", Get(fields, "probability", Get(fields, "prediction", JNum(0.0))))
    case JArr(items) =>
      if |items| > 0 && items[0].JObj? then Get(items[0].fields, "failure_probability", JNum(0.0))
      else if |items| > 0 && IsNumber(items[0]) then JNum(AsFloat(items[0]))
      else JNum(0.0)
    case JNum(n) => JNum(n)
    case JBool(_) => JNum(AsFloat(result))
    case JNull => JNum(0.0)
    case JStr(_) => JNum(0.0)
  }

  /** The value under the first of `keys` present in `fields`, or `default`
      when none is. */
  function FirstPresent(fields: map<string, Json>, keys: seq<string>, default: Json): (v: Json)
    ensures (forall i :: 0 <= i < |keys| ==> keys[i] !in fields) ==> v == default
    ensures forall i :: 0 <= i < |keys| && keys[i] in fields && (forall m :: 0 <= m < i ==> keys[m] !in fields) ==>
              v == fields[keys[i]]
    decreases |keys|
  {
    if keys == [] then default
    else if keys[0] in fields then fields[keys[0]]
    else
      var rest := FirstPresent(fields, keys[1..], default);
      assert forall i :: 1 <= i < |keys| ==> keys[1..][i - 1] == keys[i];
      rest
  }

  /** On an object reply the nested `get` chain is a precedence search: the
      value under the first key present among `failure_probability`,
      `probability`, `prediction`, else 0. */
  lemma {:induction false} ObjectLookupIsPrecedenceSearch(fields: map<string, Json>)
    ensures ExtractProbability(JObj(fields)) == FirstPresent(fields, PROBABILITY_KEYS, JNum(0.0))
  {
    var keys := PROBABILITY_KEYS;
    if keys[0] in fields {
    } else if keys[1] in fields {
      assert forall m :: 0 <= m < 1 ==> keys[m] !in fields;
    } else if keys[2] in fields {
      assert forall m :: 0 <= m < 2 ==> keys[m] !in fields;
    } else {
      assert forall i :: 0 <= i < |keys| ==> keys[i] !in fields;
    }
  }

  /** A key that is present with a `null` value is returned as `null`: the
      default applies only to absent keys. */
  lemma NullPredictionIsReturned(fields: map<string, Json>)
    requires "failure_probability" !in fields && "probability" !in fields
    requires "prediction" in fields && fields["prediction"] == JNull
    ensures ExtractProbability(JObj(fields)) == JNull
  {
  }

  /** `max(0.0, min(1.0, prob))`, the clamp applied before the percentage
      is written. */
  function ClampUnit(prob: real): (c: real)
    ensures 0.0 <= c <= 1.0
    ensures 0.0 <= prob <= 1.0 ==> c == prob
    ensures prob < 0.0 ==> c == 0.0
    ensures prob > 1.0 ==> c == 1.0
  {
    var lowered := if prob < 1.0 then prob else 1.0;
    if lowered > 0.0 then lowered else 0.0
  }

  datatype Band = Critical | Medium | Normal

  /** The banner chosen for a probability. */
  function RiskBand(p: real): (b: Band)
    ensures b == Critical <==> p > FAILURE_THRESHOLD
    ensures b == Medium <==> MEDIUM_THRESHOLD < p <= FAILURE_THRESHOLD
    ensures b == Normal <==> p <= MEDIUM_THRESHOLD
  {
    if p > FAILURE_THRESHOLD then Critical
    else if p > MEDIUM_THRESHOLD then Medium
    else Normal
  }

  function Severity(b: Band): nat
  {
    match b
    case Normal => 0
    case Medium => 1
    case Critical => 2
  }

  /** A higher probability never gets a milder banner. */
  lemma BandMonotone(p: real, q: real)
    requires p <= q
    ensures Severity(RiskBand(p)) <= Severity(RiskBand(q))
  {
  }

  /** What the output column shows for a reply: a banner and the clamped
      probability, or the error page when the extracted value is not a
      number (comparing it with the threshold raises). */
  datatype View = Shown(band: Band, shown: real) | DisplayCrash

  function Render(result: Json): (v: View)
    ensures v.DisplayCrash? <==> !IsNumber(ExtractProbability(result))
    ensures v.Shown? ==> 0.0 <= v.shown <= 1.0
    ensures v.Shown? ==> var p := AsFloat(ExtractProbability(result));
              v.band == RiskBand(p) && v.shown == ClampUnit(p)
  {
    var probability := ExtractProbability(result);
    if IsNumber(probability) then
      var p := AsFloat(probability);
      Shown(RiskBand(p), ClampUnit(p))
    else DisplayCrash
  }

  /** A score from the flexible service is found under `prediction` and
      shown as it is banded. */
  lemma BackendScoreIsShown(r: Backend.Response)
    requires r.Scored?
    ensures Render(Backend.ResponseJson(r)) == Shown(RiskBand(r.prediction), ClampUnit(r.prediction))
  {
    var fields := Backend.ResponseJson(r).fields;
    assert "failure_probability" !in fields && "probability" !in fields;
    assert fields["prediction"] == JNum(r.prediction);
  }

  /** An error from the flexible service carries `prediction: null`, which
      the dashboard picks up and cannot compare: the page fails. */
  lemma BackendErrorCrashesDisplay(error: string)
    ensures Render(Backend.ResponseJson(Backend.ErrorResult(error))) == DisplayCrash
  {
    var fields := Backend.ResponseJson(Backend.ErrorResult(error)).fields;
    assert "failure_probability" !in fields && "probability" !in fields;
    NullPredictionIsReturned(fields);
  }

  /** A score from the fixed-schema service is found under
      `failure_probability` and shown as it is banded. */
  lemma FixedScoreIsShown(r: FixedApi.Reply)
    requires r.Answered?
    ensures Render(FixedApi.ReplyJson(r)) == Shown(RiskBand(r.failureProbability), ClampUnit(r.failureProbability))
  {
  }

  /** The fixed-schema service's not-ready pair arrives as a list whose
      first element has no `failure_probability`: the dashboard reads 0 and
      shows normal operation at 0%. */
  lemma NotReadyShownAsNormal()
    ensures Render(FixedApi.ReplyJson(FixedApi.NotReady(FixedApi.NOT_READY_MESSAGE, FixedApi.NOT_READY_STATUS)))
         == Shown(Normal, 0.0)
  {
    var first := FixedApi.ReplyJson(FixedApi.NotReady(FixedApi.NOT_READY_MESSAGE, FixedApi.NOT_READY_STATUS)).items[0];
    assert "failure_probability" !in first.fields;
  }
}
