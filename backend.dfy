/** The flexible-schema prediction service (backend/main.py): the one-time
    model load with its mock fallback, the `/predict` handler with its
    readiness gate, positional feature columns, confidence clamp and anomaly
    rule, and the registry of live monitoring connections.

    The model registry, the model itself, the random number generator and the
    clock are outside the model: they arrive as parameters. */
module Backend {
  import opened Wrappers
  import opened JsonValue

  const CONFIDENCE_FLOOR: real := 0.7
  const CONFIDENCE_CEILING: real := 0.95
  const ANOMALY_THRESHOLD: real := 0.8
  const RANDOM_FEATURE_COUNT: nat := 10
  const MODEL_RUN_ID: string := "5482f4ad69d74181a86e9b5b1d2017cb"
  const NOT_LOADED_MESSAGE: string := "Model not loaded"
  const EMPTY_OUTPUT_MESSAGE: string := "list index out of range"

  // ---------------------------------------------------------------------
  // Models and frames
  // ---------------------------------------------------------------------

  /** A data-frame column label: `feature_<i>`, or the integer label a frame
      built from a bare array gets. */
  datatype Column = Named(name: string) | Positional(index: nat)

  /** A one-row data frame. */
  datatype Frame = Frame(columns: seq<Column>, row: seq<real>)

  /** What `model.predict(df)` does: return an array of scores, or raise. */
  datatype ModelOutput = Returned(values: seq<real>) | Raised(message: string)

  datatype PredictorKind = RegisteredRun(runId: string) | MockModel

  /** A loaded model: where it came from and how it scores a frame. */
  datatype Predictor = Predictor(kind: PredictorKind, predict: Frame -> ModelOutput)

  /** The run table as the start-up query sees it: reading it raised, or
      its rows, from run id to artifact location. */
  datatype RunTable = QueryRaised(message: string) | Runs(artifacts: map<string, string>)

  function RunModelUri(runId: string): string
  {
    "runs:/" + runId + "/model"
  }

  /** The process-wide model slot and readiness flag. */
  class ModelState {
    var model: Option<Predictor>
    var modelLoaded: bool

    ghost predicate Valid()
      reads this
    {
      modelLoaded <==> model.Some?
    }

    constructor ()
      ensures Valid() && !modelLoaded && model == None
    {
      model := None;
      modelLoaded := false;
    }

    /** `load_model`: look up the configured run in the run table; when it
        is there and its model loads, keep that model, otherwise fall back
        to the mock model; either way the service is ready afterwards.
        `loadUri` is the registry's loader, `mockPredict` the mock model's
        scoring. */
    method LoadModel(table: RunTable, loadUri: string -> Option<Frame -> ModelOutput>,
                     mockPredict: Frame -> ModelOutput)
      modifies this
      ensures Valid() && modelLoaded
      ensures var loaded := loadUri(RunModelUri(MODEL_RUN_ID));
        model == Some(
          if table.Runs? && MODEL_RUN_ID in table.artifacts && loaded.Some?
          then Predictor(RegisteredRun(MODEL_RUN_ID), loaded.value)
          else Predictor(MockModel, mockPredict))
    {
      match table {
        case QueryRaised(_) =>
          model := Some(Predictor(MockModel, mockPredict));
          modelLoaded := true;
        case Runs(artifacts) =>
          if MODEL_RUN_ID in artifacts {
            var runId := MODEL_RUN_ID;
            var loaded := loadUri(RunModelUri(runId));
            if loaded.Some? {
              model := Some(Predictor(RegisteredRun(runId), loaded.value));
              modelLoaded := true;
              return;
            }
          }
          model := Some(Predictor(MockModel, mockPredict));
          modelLoaded := true;
      }
    }
  }

  // ---------------------------------------------------------------------
  // The /predict handler
  // ---------------------------------------------------------------------

  function DigitChar(d: nat): char
    requires d < 10
  {
    ('0' as int + d) as char
  }

  /** The value of a string of decimal digits. */
  function DigitsValue(s: string): nat
    requires forall k :: 0 <= k < |s| ==> '0' <= s[k] <= '9'
  {
    if s == [] then 0
    else DigitsValue(s[..|s| - 1]) * 10 + (s[|s| - 1] as int - '0' as int)
  }

  /** Decimal rendering of a natural number, as an f-string writes it: the
      digits of `n`, without leading zeros. */
  function NatToString(n: nat): (s: string)
    ensures |s| > 0 && forall k :: 0 <= k < |s| ==> '0' <= s[k] <= '9'
    ensures DigitsValue(s) == n
    ensures |s| > 1 ==> s[0] != '0'
  {
    if n < 10 then [DigitChar(n)]
    else
      var front := NatToString(n / 10);
      var s := front + [DigitChar(n % 10)];
      assert s[..|s| - 1] == front;
      s
  }

  function FeatureName(i: nat): string
  {
    "feature_" + NatToString(i)
  }

  /** Different positions get different labels. */
  lemma FeatureNamesDistinct(i: nat, j: nat)
    requires i != j
    ensures FeatureName(i) != FeatureName(j)
  {
    assert FeatureName(i)[8..] == NatToString(i) && FeatureName(j)[8..] == NatToString(j);
  }

  /** The frame handed to the model: the request's features under the
      labels `feature_0 .. feature_{n-1}`, or, when there are none, ten
      random values (`noise`) under the labels 0 .. 9. */
  function BuildFrame(features: seq<real>, noise: seq<real>): (f: Frame)
    requires |noise| == RANDOM_FEATURE_COUNT
    ensures |f.columns| == |f.row|
    ensures |features| > 0 ==>
              f.row == features && forall i :: 0 <= i < |features| ==> f.columns[i] == Named(FeatureName(i))
    ensures |features| == 0 ==>
              f.row == noise && forall i :: 0 <= i < RANDOM_FEATURE_COUNT ==> f.columns[i] == Positional(i)
  {
    if |features| > 0 then
      Frame(seq(|features|, i requires 0 <= i < |features| => Named(FeatureName(i))), features)
    else
      Frame(seq(RANDOM_FEATURE_COUNT, i requires 0 <= i < RANDOM_FEATURE_COUNT => Positional(i)), noise)
  }

  /** `min(0.95, max(0.7, p))`. */
  function Confidence(p: real): (c: real)
    ensures CONFIDENCE_FLOOR <= c <= CONFIDENCE_CEILING
    ensures CONFIDENCE_FLOOR <= p <= CONFIDENCE_CEILING ==> c == p
    ensures p < CONFIDENCE_FLOOR ==> c == CONFIDENCE_FLOOR
    ensures p > CONFIDENCE_CEILING ==> c == CONFIDENCE_CEILING
  {
    var raised := if p > CONFIDENCE_FLOOR then p else CONFIDENCE_FLOOR;
    if raised < CONFIDENCE_CEILING then raised else CONFIDENCE_CEILING
  }

  /** A higher score never gives a lower confidence. */
  lemma ConfidenceMonotone(p: real, q: real)
    requires p <= q
    ensures Confidence(p) <= Confidence(q)
  {
  }

  datatype Response =
    | Scored(prediction: real, confidence: real, anomaly: bool, featuresUsed: nat, timestamp: string)
    | ErrorResult(error: string)

  /** `predict`: refuse while no model is loaded; otherwise score the frame
      and report the first score, its clamped confidence, whether it is an
      anomaly and how many features were used. An exception raised while
      scoring becomes an error result instead of escaping. `now` is the
      clock reading, `noise` the random row used when no features are sent. */
  function Predict(modelLoaded: bool, model: Option<Predictor>, features: seq<real>,
                   noise: seq<real>, now: string): (r: Response)
    requires modelLoaded ==> model.Some?
    requires |noise| == RANDOM_FEATURE_COUNT
    ensures !modelLoaded ==> r == ErrorResult(NOT_LOADED_MESSAGE)
    ensures modelLoaded ==>
      var out := model.value.predict(BuildFrame(features, noise));
      && (out.Raised? ==> r == ErrorResult(out.message))
      && (r.Scored? <==> out.Returned? && |out.values| > 0)
      && (r.Scored? ==> r.prediction == out.values[0])
    ensures modelLoaded ==>
      var out := model.value.predict(BuildFrame(features, noise));
      out.Returned? && out.values == [] ==> r == ErrorResult(EMPTY_OUTPUT_MESSAGE)
    ensures r.Scored? ==>
      && r.confidence == Confidence(r.prediction)
      && CONFIDENCE_FLOOR <= r.confidence <= CONFIDENCE_CEILING
      && (CONFIDENCE_FLOOR <= r.prediction <= CONFIDENCE_CEILING ==> r.confidence == r.prediction)
      && (r.anomaly <==> r.prediction > ANOMALY_THRESHOLD)
      && r.featuresUsed == (if |features| > 0 then |features| else RANDOM_FEATURE_COUNT)
      && r.timestamp == now
  {
    if !modelLoaded then ErrorResult(NOT_LOADED_MESSAGE)
    else
      match model.value.predict(BuildFrame(features, noise))
      case Raised(message) => ErrorResult(message)
      case Returned(values) =>
        if values == [] then ErrorResult(EMPTY_OUTPUT_MESSAGE)
        else
          var p := values[0];
          Scored(p, Confidence(p), p > ANOMALY_THRESHOLD,
                 if |features| > 0 then |features| else RANDOM_FEATURE_COUNT, now)
  }

  /** The JSON body the handler returns: a score carries its six fields
      with `status: "success"`; an error carries the message and a `null`
      prediction. */
  function ResponseJson(r: Response): (j: Json)
    ensures j.JObj?
    ensures r.Scored? ==>
      && j.fields.Keys == {"prediction", "confidence", "anomaly", "features_used", "timestamp", "status"}
      && j.fields["prediction"] == JNum(r.prediction) && j.fields["confidence"] == JNum(r.confidence)
      && j.fields["anomaly"] == JBool(r.anomaly) && j.fields["features_used"] == JNum(r.featuresUsed as real)
      && j.fields["timestamp"] == JStr(r.timestamp) && j.fields["status"] == JStr("success")
    ensures r.ErrorResult? ==>
      && j.fields.Keys == {"error", "prediction"}
      && j.fields["error"] == JStr(r.error) && j.fields["prediction"] == JNull
  {
    match r
    case Scored(p, c, a, n, ts) =>
      JObj(map["prediction" := JNum(p), "confidence" := JNum(c), "anomaly" := JBool(a),
               "features_used" := JNum(n as real), "timestamp" := JStr(ts),
               "status" := JStr("success")])
    case ErrorResult(e) => JObj(map["error" := JStr(e), "prediction" := JNull])
  }

  // ---------------------------------------------------------------------
  // Live monitoring connections
  // ---------------------------------------------------------------------

  function IndexOf<C(==)>(s: seq<C>, x: C): (k: nat)
    requires x in s
    ensures k < |s| && s[k] == x && x !in s[..k]
  {
    if s[0] == x then 0 else 1 + IndexOf(s[1..], x)
  }

  /** `list.remove(x)`: the first occurrence goes, the rest keep their order. */
  function RemoveFirst<C(==)>(s: seq<C>, x: C): (r: seq<C>)
    requires x in s
    ensures |r| == |s| - 1
    ensures multiset(r) == multiset(s) - multiset{x}
    ensures exists k :: 0 <= k < |s| && s[k] == x && x !in s[..k] && r == s[..k] + s[k + 1..]
  {
    var k := IndexOf(s, x);
    assert s == s[..k] + [x] + s[k + 1..];
    s[..k] + s[k + 1..]
  }

  /** Removing an entry keeps only entries of the list and loses no other. */
  lemma RemoveFirstMembers<C>(s: seq<C>, x: C)
    requires x in s
    ensures forall d :: d in RemoveFirst(s, x) ==> d in s
    ensures forall d :: d in s && d != x ==> d in RemoveFirst(s, x)
  {
    var r := RemoveFirst(s, x);
    assert forall d :: d in r ==> d in multiset(s);
    assert forall d :: d in s && d != x ==> d in multiset(r);
  }

  /** No connection is registered twice. */
  predicate Distinct<C(==)>(s: seq<C>)
  {
    forall i, j :: 0 <= i < j < |s| ==> s[i] != s[j]
  }

  /** One pass of the broadcast loop as Python runs it, from position `i` of
      the live list: the entry at `i` is sent to; if the send raises, its
      first occurrence is removed from the live list; then the position
      advances by one. Gives the final list and the entries sent to. */
  function LoopPass<C(==)>(live: seq<C>, i: nat, sendFails: C -> bool): (seq<C>, seq<C>)
    decreases |live| - i
  {
    if i >= |live| then (live, [])
    else
      var c := live[i];
      var next := if sendFails(c) then RemoveFirst(live, c) else live;
      var after := LoopPass(next, i + 1, sendFails);
      (after.0, [c] + after.1)
  }

  /** The loop only sends to and keeps entries of its list, and an entry
      leaves the list only after it was sent to and its send failed,
      duplicates included. */
  lemma {:induction false} LoopPassRemovesOnlyFailed<C>(live: seq<C>, i: nat, sendFails: C -> bool)
    ensures forall c :: c in LoopPass(live, i, sendFails).0 ==> c in live
    ensures forall c :: c in LoopPass(live, i, sendFails).1 ==> c in live
    ensures forall c :: c in live && c !in LoopPass(live, i, sendFails).0 ==>
              c in LoopPass(live, i, sendFails).1 && sendFails(c)
    decreases |live| - i
  {
    if i < |live| {
      var c := live[i];
      if sendFails(c) {
        var next := RemoveFirst(live, c);
        RemoveFirstMembers(live, c);
        LoopPassRemovesOnlyFailed(next, i + 1, sendFails);
        var after := LoopPass(next, i + 1, sendFails);
        assert LoopPass(live, i, sendFails) == (after.0, [c] + after.1);
        OnlyFailedLeave(live, next, c, after.0, after.1, sendFails);
      } else {
        LoopPassRemovesOnlyFailed(live, i + 1, sendFails);
        var after := LoopPass(live, i + 1, sendFails);
        assert LoopPass(live, i, sendFails) == (after.0, [c] + after.1);
        OnlyFailedLeave(live, live, c, after.0, after.1, sendFails);
      }
    }
  }

  /** One step of `LoopPassRemovesOnlyFailed`: sending to `c` turns `live`
      into `next`, from which the rest of the loop keeps `kept` and sends
      to `sent`. */
  lemma OnlyFailedLeave<C>(live: seq<C>, next: seq<C>, c: C, kept: seq<C>, sent: seq<C>, sendFails: C -> bool)
    requires c in live
    requires forall d :: d in next ==> d in live
    requires forall d :: d in live && d != c ==> d in next
    requires !sendFails(c) ==> c in next
    requires forall d :: d in kept ==> d in next
    requires forall d :: d in sent ==> d in next
    requires forall d :: d in next && d !in kept ==> d in sent && sendFails(d)
    ensures forall d :: d in kept ==> d in live
    ensures forall d :: d in [c] + sent ==> d in live
    ensures forall d :: d in live && d !in kept ==> d in [c] + sent && sendFails(d)
  {
    forall d | d in live && d !in kept
      ensures d in [c] + sent && sendFails(d)
    {
      if d != c || !sendFails(c) {
        assert d in next;
      }
    }
  }

  /** The same pass over the part `r` of a duplicate-free list still ahead
      of the loop: a failed entry is removed and the entry after it is
      skipped (kept, never sent to). Gives the kept entries and the entries
      sent to. */
  function Pass<C>(r: seq<C>, sendFails: C -> bool): (res: (seq<C>, seq<C>))
    ensures forall c :: c in res.0 ==> c in r
    ensures forall c :: c in res.1 ==> c in r
    ensures |res.0| <= |r| && |res.1| <= |r|
  {
    if r == [] then ([], [])
    else if sendFails(r[0]) then
      if |r| == 1 then ([], [r[0]])
      else
        var after := Pass(r[2..], sendFails);
        ([r[1]] + after.0, [r[0]] + after.1)
    else
      var after := Pass(r[1..], sendFails);
      ([r[0]] + after.0, [r[0]] + after.1)
  }

  lemma DistinctTail<C>(s: seq<C>, k: nat)
    requires Distinct(s) && k <= |s|
    ensures Distinct(s[k..])
    ensures forall j :: 0 <= j < k ==> s[j] !in s[k..]
  {
  }

  /** In a duplicate-free list the entry at `|p|` of `p + r` is its first occurrence. */
  lemma RemoveFirstInDistinct<C>(p: seq<C>, r: seq<C>)
    requires Distinct(p + r) && r != []
    ensures IndexOf(p + r, r[0]) == |p|
    ensures RemoveFirst(p + r, r[0]) == p + r[1..]
  {
    var live := p + r;
    var k := IndexOf(live, r[0]);
    assert live[|p|] == r[0];
    assert k == |p|;
    assert live[..k] == p;
    assert live[k + 1..] == r[1..];
  }

  /** Removing an entry keeps a list duplicate-free. */
  lemma DistinctWithout<C>(p: seq<C>, r: seq<C>)
    requires r != [] && Distinct(p + r)
    ensures Distinct(p + r[1..])
  {
    var live, rest := p + r, p + r[1..];
    forall i, j | 0 <= i < j < |rest| ensures rest[i] != rest[j] {
      assert rest[i] == live[if i < |p| then i else i + 1];
      assert rest[j] == live[if j < |p| then j else j + 1];
    }
  }

  /** One step of the loop at the first entry of `r`: the entry is sent to,
      and the loop goes on over the list without it (the send raised) or
      with it behind the position (the send succeeded). */
  lemma LoopPassStep<C>(p: seq<C>, r: seq<C>, sendFails: C -> bool)
    requires r != [] && Distinct(p + r)
    ensures var next := if sendFails(r[0]) then p + r[1..] else (p + [r[0]]) + r[1..];
      var after := LoopPass(next, |p| + 1, sendFails);
      LoopPass(p + r, |p|, sendFails) == (after.0, [r[0]] + after.1)
  {
    var live := p + r;
    assert live[|p|] == r[0];
    if sendFails(r[0]) {
      RemoveFirstInDistinct(p, r);
    } else {
      assert (p + [r[0]]) + r[1..] == live;
    }
  }

  /** On a duplicate-free list the index-based loop is the skipping pass:
      with `p` already behind the loop, the list ends as `p` followed by the
      kept entries, and the entries sent to are those of the pass. */
  lemma {:induction false} LoopPassIsPass<C>(p: seq<C>, r: seq<C>, sendFails: C -> bool)
    requires Distinct(p + r)
    ensures LoopPass(p + r, |p|, sendFails) == (p + Pass(r, sendFails).0, Pass(r, sendFails).1)
    decreases |r|, 1
  {
    if r == [] {
      assert p + r == p && p + [] == p;
    } else if sendFails(r[0]) {
      LoopPassStep(p, r, sendFails);
      DistinctWithout(p, r);
      if |r| == 1 {
        assert p + r[1..] == p && p + [] == p;
        assert [r[0]] + [] == [r[0]];
      } else {
        LoopPassFailed(p, r, sendFails);
      }
    } else {
      LoopPassStep(p, r, sendFails);
      LoopPassKept(p, r, sendFails);
    }
  }

  /** The case of `LoopPassIsPass` where the first send succeeds: the entry
      moves behind the loop. */
  lemma {:induction false} LoopPassKept<C>(p: seq<C>, r: seq<C>, sendFails: C -> bool)
    requires r != [] && Distinct(p + r) && !sendFails(r[0])
    ensures var after := LoopPass((p + [r[0]]) + r[1..], |p| + 1, sendFails);
      (after.0, [r[0]] + after.1) == (p + Pass(r, sendFails).0, Pass(r, sendFails).1)
    decreases |r|, 0
  {
    var p' := p + [r[0]];
    assert Distinct(p' + r[1..]) by { assert p' + r[1..] == p + r; }
    LoopPassIsPass(p', r[1..], sendFails);
    var rest := Pass(r[1..], sendFails);
    assert p + ([r[0]] + rest.0) == p' + rest.0;
  }

  /** The case of `LoopPassIsPass` where the first send raises and an entry
      follows: that entry is stepped over. */
  lemma {:induction false} LoopPassFailed<C>(p: seq<C>, r: seq<C>, sendFails: C -> bool)
    requires |r| >= 2 && Distinct(p + r[1..]) && sendFails(r[0])
    ensures var after := LoopPass(p + r[1..], |p| + 1, sendFails);
      (after.0, [r[0]] + after.1) == (p + Pass(r, sendFails).0, Pass(r, sendFails).1)
    decreases |r|, 0
  {
    var p' := p + [r[1]];
    assert p + r[1..] == p' + r[2..];
    LoopPassIsPass(p', r[2..], sendFails);
    var rest := Pass(r[2..], sendFails);
    assert p + ([r[1]] + rest.0) == p' + rest.0;
  }

  /** What one pass does to a duplicate-free list: an entry is removed
      exactly when it was sent to and its send failed, the first entry is
      always sent to, the entry right after a failed one is never sent to,
      and every other entry is. */
  lemma {:induction false} PassSkipsAfterFailure<C>(r: seq<C>, sendFails: C -> bool)
    requires Distinct(r)
    ensures forall c :: c in Pass(r, sendFails).0 <==>
      c in r && !(c in Pass(r, sendFails).1 && sendFails(c))
    ensures |r| > 0 ==> r[0] in Pass(r, sendFails).1
    ensures forall k :: 0 < k < |r| ==>
      (r[k] in Pass(r, sendFails).1 <==> !(r[k - 1] in Pass(r, sendFails).1 && sendFails(r[k - 1])))
  {
    var (kept, tried) := Pass(r, sendFails);
    if r != [] {
      if sendFails(r[0]) {
        if |r| > 1 {
          var rest := r[2..];
          DistinctTail(r, 2);
          PassSkipsAfterFailure(rest, sendFails);
          var (kept', tried') := Pass(rest, sendFails);
          assert kept == [r[1]] + kept' && tried == [r[0]] + tried';
          assert r[1] !in tried' && r[0] !in tried' && r[0] !in kept' && r[1] !in kept';
          forall k | 0 < k < |r|
            ensures r[k] in tried <==> !(r[k - 1] in tried && sendFails(r[k - 1]))
          {
            if k >= 2 {
              assert r[k] == rest[k - 2];
              assert r[k] != r[0];
              if k > 2 {
                assert r[k - 1] == rest[k - 3] && r[k - 1] != r[0];
              }
            }
          }
        }
      } else {
        var rest := r[1..];
        DistinctTail(r, 1);
        PassSkipsAfterFailure(rest, sendFails);
        var (kept', tried') := Pass(rest, sendFails);
        assert kept == [r[0]] + kept' && tried == [r[0]] + tried';
        assert r[0] !in tried' && r[0] !in kept';
        forall k | 0 < k < |r|
          ensures r[k] in tried <==> !(r[k - 1] in tried && sendFails(r[k - 1]))
        {
          assert r[k] == rest[k - 1] && r[k] != r[0];
          if k > 1 {
            assert r[k - 1] == rest[k - 2] && r[k - 1] != r[0];
          }
        }
      }
    }
  }

  /** Two connections, the first of which fails: the second is never sent to. */
  lemma BroadcastSkipsSuccessor(fails: int -> bool)
    requires fails(1) && !fails(2)
    ensures LoopPass([1, 2], 0, fails) == ([2], [1])
  {
    assert IndexOf([1, 2], 1) == 0;
    assert RemoveFirst([1, 2], 1) == [2];
    assert LoopPass([2], 1, fails) == ([2], []);
    assert [1] + LoopPass([2], 1, fails).1 == [1];
  }

  /** The connections whose send succeeds, in order. */
  function Survivors<C>(s: seq<C>, sendFails: C -> bool): (r: seq<C>)
    ensures forall k :: 0 <= k < |s| ==> (s[k] in r <==> !sendFails(s[k]))
    ensures forall k :: 0 <= k < |r| ==> r[k] in s && !sendFails(r[k])
  {
    if s == [] then []
    else
      var rest := Survivors(s[..|s| - 1], sendFails);
      var last := s[|s| - 1];
      assert s == s[..|s| - 1] + [last];
      if sendFails(last) then rest else rest + [last]
  }

  /** Filtering works part by part: on a concatenation it keeps the
      survivors of each part, in order and with repeated entries. */
  lemma {:induction false} SurvivorsAppend<C>(a: seq<C>, b: seq<C>, sendFails: C -> bool)
    ensures Survivors(a + b, sendFails) == Survivors(a, sendFails) + Survivors(b, sendFails)
  {
    if b == [] {
      assert a + b == a;
    } else {
      var init, last := b[..|b| - 1], b[|b| - 1];
      assert b == init + [last] && a + b == (a + init) + [last];
      SurvivorsAppend(a, init, sendFails);
      SurvivorsSnoc(a + init, last, sendFails);
      SurvivorsSnoc(init, last, sendFails);
      var x, y := Survivors(a, sendFails), Survivors(init, sendFails);
      var z := if sendFails(last) then [] else [last];
      assert (x + y) + z == x + (y + z);
    }
  }

  lemma SurvivorsSnoc<C>(s: seq<C>, x: C, sendFails: C -> bool)
    ensures Survivors(s + [x], sendFails) == Survivors(s, sendFails) + if sendFails(x) then [] else [x]
  {
    var sx := s + [x];
    assert sx != [] && sx[..|sx| - 1] == s && sx[|sx| - 1] == x;
  }

  /** The skipping pass keeps a duplicate-free list minus the entries that
      were sent to and failed, in their order. */
  lemma PassIsSurvivors<C>(r: seq<C>, sendFails: C -> bool)
    requires Distinct(r)
    ensures Pass(r, sendFails).0 == Survivors(r, c => c in Pass(r, sendFails).1 && sendFails(c))
  {
    var gone := c => c in Pass(r, sendFails).1 && sendFails(c);
    PassKeepsSurvivors(r, sendFails, gone);
  }

  /** `PassIsSurvivors` for any test `gone` that agrees on the entries of
      `r` with "sent to and failed". */
  lemma {:induction false} PassKeepsSurvivors<C>(r: seq<C>, sendFails: C -> bool, gone: C -> bool)
    requires Distinct(r)
    requires forall c :: c in r ==> (gone(c) <==> c in Pass(r, sendFails).1 && sendFails(c))
    ensures Pass(r, sendFails).0 == Survivors(r, gone)
    decreases |r|, 1
  {
    if r != [] {
      var h := r[0];
      SurvivorsOfOne(h, gone);
      if sendFails(h) && |r| == 1 {
        assert gone(h);
      } else if sendFails(h) {
        PassKeepsSurvivorsAfterFailure(r, sendFails, gone);
      } else {
        var rest := r[1..];
        DistinctTail(r, 1);
        var after := Pass(rest, sendFails);
        assert !gone(h);
        forall c | c in rest ensures gone(c) <==> c in after.1 && sendFails(c) {
          assert c != h;
        }
        PassKeepsSurvivors(rest, sendFails, gone);
        assert r == [h] + rest;
        SurvivorsAppend([h], rest, gone);
      }
    }
  }

  /** The case of `PassKeepsSurvivors` where the first send fails and an
      entry follows: that entry is kept without being sent to. */
  lemma {:induction false} PassKeepsSurvivorsAfterFailure<C>(r: seq<C>, sendFails: C -> bool, gone: C -> bool)
    requires |r| >= 2 && Distinct(r) && sendFails(r[0])
    requires forall c :: c in r ==> (gone(c) <==> c in Pass(r, sendFails).1 && sendFails(c))
    ensures Pass(r, sendFails).0 == Survivors(r, gone)
    decreases |r|, 0
  {
    var h, second, rest := r[0], r[1], r[2..];
    DistinctTail(r, 2);
    var after := Pass(rest, sendFails);
    assert Pass(r, sendFails).1 == [h] + after.1;
    assert second != h && second !in after.1;
    SurvivorsOfOne(h, gone);
    SurvivorsOfOne(second, gone);
    forall c | c in rest ensures gone(c) <==> c in after.1 && sendFails(c) {
      assert c != h;
    }
    PassKeepsSurvivors(rest, sendFails, gone);
    assert r == [h] + ([second] + rest);
    SurvivorsAppend([h], [second] + rest, gone);
    SurvivorsAppend([second], rest, gone);
  }

  lemma SurvivorsOfOne<C>(x: C, sendFails: C -> bool)
    ensures Survivors([x], sendFails) == if sendFails(x) then [] else [x]
  {
    assert [x][..0] == [];
  }

  /** The live monitoring connections. */
  class ConnectionManager<C(==)> {
    var activeConnections: seq<C>

    constructor ()
      ensures activeConnections == []
    {
      activeConnections := [];
    }

    /** `connect`: the accepted connection is appended. */
    method Connect(ws: C)
      modifies this
      ensures activeConnections == old(activeConnections) + [ws]
    {
      activeConnections := activeConnections + [ws];
    }

    /** `disconnect`: `list.remove`, which raises (`raised`) and changes
        nothing when the connection is not registered. */
    method Disconnect(ws: C) returns (raised: bool)
      modifies this
      ensures raised <==> ws !in old(activeConnections)
      ensures activeConnections ==
        if raised then old(activeConnections) else RemoveFirst(old(activeConnections), ws)
    {
      if ws in activeConnections {
        activeConnections := RemoveFirst(activeConnections, ws);
        raised := false;
      } else {
        raised := true;
      }
    }

    /** `broadcast`: send to each entry of the live list in turn, removing an
        entry from that same list when its send raises. Returns the entries
        sent to; `sendFails` says whose send raises. */
    method Broadcast(sendFails: C -> bool) returns (attempted: seq<C>)
      modifies this
      ensures (activeConnections, attempted) == LoopPass(old(activeConnections), 0, sendFails)
    {
      ghost var goal := LoopPass(activeConnections, 0, sendFails);
      var i := 0;
      attempted := [];
      while i < |activeConnections|
        invariant LoopPass(activeConnections, i, sendFails).0 == goal.0
        invariant attempted + LoopPass(activeConnections, i, sendFails).1 == goal.1
        decreases |activeConnections| - i
      {
        var connection := activeConnections[i];
        attempted := attempted + [connection];
        if sendFails(connection) {
          activeConnections := RemoveFirst(activeConnections, connection);
        }
        i := i + 1;
      }
      assert LoopPass(activeConnections, i, sendFails) == (activeConnections, []);
      assert attempted + [] == attempted;
    }

    /** Broadcast as it is evidently meant to work: send to every entry of a
        snapshot of the list, then keep exactly those whose send succeeded. */
    method BroadcastToAll(sendFails: C -> bool) returns (attempted: seq<C>)
      modifies this
      ensures attempted == old(activeConnections)
      ensures activeConnections == Survivors(old(activeConnections), sendFails)
    {
      var snapshot := activeConnections;
      var survivors := [];
      attempted := [];
      for i := 0 to |snapshot|
        invariant attempted == snapshot[..i]
        invariant survivors == Survivors(snapshot[..i], sendFails)
      {
        attempted := attempted + [snapshot[i]];
        assert snapshot[..i + 1][..i] == snapshot[..i];
        if !sendFails(snapshot[i]) {
          survivors := survivors + [snapshot[i]];
        }
      }
      assert snapshot[..|snapshot|] == snapshot;
      activeConnections := survivors;
    }
  }
}
