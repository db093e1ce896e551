/** Hyper-parameter derivation of the training script
    (ml-pipeline/train_model.py): the XGBoost settings are constants except
    two that follow the share of positive labels in the training split, the
    initial prediction `base_score` and the class weight `scale_pos_weight`.

    Reading the feature file, the split, the fit, the metrics and the
    experiment log are outside the model. */
module Training {
  import opened SeqStats

  const BASE_SCORE_FLOOR: real := 0.01
  const BASE_SCORE_CEILING: real := 0.99
  const DEFAULT_SCALE_POS_WEIGHT: real := 1.0

  /** Every label is 0 or 1, as `will_fail` is. */
  predicate Binary(labels: seq<int>)
  {
    forall k :: 0 <= k < |labels| ==> labels[k] == 0 || labels[k] == 1
  }

  /** The sum of the labels; on 0/1 labels, the number of positives. */
  function LabelSum(labels: seq<int>): (s: int)
    ensures Binary(labels) ==> 0 <= s <= |labels|
    ensures Binary(labels) ==> (s == 0 <==> forall k :: 0 <= k < |labels| ==> labels[k] == 0)
    ensures Binary(labels) ==> (s == |labels| <==> forall k :: 0 <= k < |labels| ==> labels[k] == 1)
  {
    if labels == [] then 0
    else
      var rest := LabelSum(labels[1..]);
      assert forall k :: 1 <= k < |labels| ==> labels[k] == labels[1..][k - 1];
      labels[0] + rest
  }

  /** `y_train.mean()`: the label sum spread over the labels; on 0/1 labels
      a value in [0, 1]. */
  function PositiveRatio(labels: seq<int>): (ratio: real)
    requires |labels| > 0
    ensures ratio * (|labels| as real) == LabelSum(labels) as real
    ensures Binary(labels) ==> 0.0 <= ratio <= 1.0
  {
    Share(LabelSum(labels), |labels|);
    LabelSum(labels) as real / |labels| as real
  }

  /** A quotient by a positive count undoes the multiplication, and a part
      of the count gives a quotient in [0, 1]. */
  lemma Share(part: int, count: nat)
    requires count > 0
    ensures (part as real / count as real) * (count as real) == part as real
    ensures 0 <= part <= count ==> 0.0 <= part as real / count as real <= 1.0
  {
    var s, n := part as real, count as real;
    assert (s / n) * n == s;
    if 0 <= part <= count {
      DivideAtMost(s, n, 1.0);
      DivideAtLeast(s, n, 0.0);
    }
  }

  /** On 0/1 labels the ratio is a share: it lies in [0, 1], is 0 exactly
      when there is no positive and 1 exactly when every label is positive. */
  lemma RatioIsShare(labels: seq<int>)
    requires |labels| > 0 && Binary(labels)
    ensures 0.0 <= PositiveRatio(labels) <= 1.0
    ensures PositiveRatio(labels) == 0.0 <==> forall k :: 0 <= k < |labels| ==> labels[k] == 0
    ensures PositiveRatio(labels) == 1.0 <==> forall k :: 0 <= k < |labels| ==> labels[k] == 1
  {
    var s, n := LabelSum(labels) as real, |labels| as real;
    ShareEnds(PositiveRatio(labels), n, s);
  }

  /** A share of a positive count is 0 exactly for the empty part and 1
      exactly for the whole. */
  lemma ShareEnds(ratio: real, n: real, s: real)
    requires n > 0.0 && ratio * n == s
    ensures ratio == 0.0 <==> s == 0.0
    ensures ratio == 1.0 <==> s == n
  {
    if ratio != 0.0 {
      assert s / n == ratio;
    }
    if s == n {
      assert (ratio - 1.0) * n == 0.0;
    }
  }

  /** The clamp of the general branch, `max(0.01, min(0.99, ratio))`: the
      ratio itself inside [0.01, 0.99], the nearer bound outside. */
  function ClampBaseScore(ratio: real): (c: real)
    ensures BASE_SCORE_FLOOR <= c <= BASE_SCORE_CEILING
    ensures BASE_SCORE_FLOOR <= ratio <= BASE_SCORE_CEILING ==> c == ratio
    ensures ratio < BASE_SCORE_FLOOR ==> c == BASE_SCORE_FLOOR
    ensures ratio > BASE_SCORE_CEILING ==> c == BASE_SCORE_CEILING
  {
    var lowered := if ratio < BASE_SCORE_CEILING then ratio else BASE_SCORE_CEILING;
    if lowered > BASE_SCORE_FLOOR then lowered else BASE_SCORE_FLOOR
  }

  /** `base_score`: 0.01 when there is no positive, 0.99 when there is no
      negative, the clamped ratio otherwise. It is always strictly inside
      (0, 1), as the logistic objective requires. */
  function BaseScore(ratio: real): (b: real)
    ensures BASE_SCORE_FLOOR <= b <= BASE_SCORE_CEILING
    ensures ratio == 0.0 ==> b == BASE_SCORE_FLOOR
    ensures ratio == 1.0 ==> b == BASE_SCORE_CEILING
    ensures BASE_SCORE_FLOOR <= ratio <= BASE_SCORE_CEILING ==> b == ratio
    ensures ratio < BASE_SCORE_FLOOR ==> b == BASE_SCORE_FLOOR
    ensures ratio > BASE_SCORE_CEILING ==> b == BASE_SCORE_CEILING
  {
    if ratio == 0.0 then BASE_SCORE_FLOOR
    else if ratio == 1.0 then BASE_SCORE_CEILING
    else ClampBaseScore(ratio)
  }

  /** The two explicit cases give what the clamp would give anyway. */
  lemma SpecialCasesAgreeWithClamp(ratio: real)
    ensures BaseScore(ratio) == ClampBaseScore(ratio)
  {
  }

  /** `scale_pos_weight`: 1.0 unless both classes occur, and then the ratio
      of negatives to positives, `(1 - ratio) / ratio`. Always positive. */
  function ScalePosWeight(ratio: real): (w: real)
    ensures w > 0.0
    ensures 0.0 < ratio < 1.0 ==> w * ratio == 1.0 - ratio
    ensures !(0.0 < ratio < 1.0) ==> w == DEFAULT_SCALE_POS_WEIGHT
  {
    if 0.0 < ratio < 1.0 then (1.0 - ratio) / ratio else DEFAULT_SCALE_POS_WEIGHT
  }

  /** With both classes present (`positives` of `total` labels, the ratio
      being `positives / total`), weighting every positive by
      `scale_pos_weight` makes the positives weigh as much as the negatives. */
  lemma WeightBalancesClasses(positives: real, total: real)
    requires 0.0 < positives < total
    ensures positives * ScalePosWeight(positives / total) == total - positives
  {
    var ratio := positives / total;
    assert ratio * total == positives;
    DivideAtMost(positives, total, 1.0);
    DivideAtLeast(positives, total, 0.0);
    assert ratio != 0.0 && ratio != 1.0;
    Balance(positives, total, ratio, ScalePosWeight(ratio));
  }

  lemma Balance(s: real, n: real, ratio: real, w: real)
    requires ratio * n == s && w * ratio == 1.0 - ratio
    ensures s * w == n - s
  {
    calc {
      s * w;
      (ratio * n) * w;
      (w * ratio) * n;
      (1.0 - ratio) * n;
      n - s;
    }
  }

  /** The settings handed to the classifier. */
  datatype Params = Params(
    objective: string,
    nEstimators: nat,
    learningRate: real,
    maxDepth: nat,
    randomState: int,
    useLabelEncoder: bool,
    baseScore: real,
    evalMetric: string,
    scalePosWeight: real)

  /** The settings for a training split with the given positive ratio. */
  function Hyperparameters(ratio: real): (p: Params)
    ensures p.baseScore == BaseScore(ratio) && p.scalePosWeight == ScalePosWeight(ratio)
    ensures 0.0 < p.baseScore < 1.0 && p.scalePosWeight > 0.0
  {
    var params := Params("binary:logistic", 100, 0.1, 5, 42, false, BaseScore(ratio), "logloss",
                         DEFAULT_SCALE_POS_WEIGHT);
    if 0.0 < ratio < 1.0 then params.(scalePosWeight := ScalePosWeight(ratio)) else params
  }

  /** Every setting other than the two derived ones is the same for all
      data. */
  lemma OnlyDerivedSettingsDependOnData(r1: real, r2: real)
    ensures Hyperparameters(r1).(baseScore := 0.0, scalePosWeight := 0.0)
         == Hyperparameters(r2).(baseScore := 0.0, scalePosWeight := 0.0)
  {
  }
}
