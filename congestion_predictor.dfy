/** The deterministic helpers around the congestion predictor: the risk
    category of a score, the class weights of an imbalanced target, the
    temporal train/test split, the normalised and ranked feature importances,
    the top features of a model and the choice of the best model by ROC-AUC.
    Training and scoring themselves are calls into scikit-learn and are not
    part of this model. */
module CongestionPredictor {
  import opened Wrappers
  import opened Seqs
  import opened Sorting

  // ---------------------------------------------------------------------------
  // Risk category
  // ---------------------------------------------------------------------------

  datatype RiskCategory = Low | Medium | High | Critical

  /** `"Low"`, `"Medium"`, `"High"`, `"Critical"`. */
  function CategoryName(c: RiskCategory): string
  {
    match c
    case Low => "Low"
    case Medium => "Medium"
    case High => "High"
    case Critical => "Critical"
  }

  /** The position of a category from the least to the most severe. */
  function Severity(c: RiskCategory): nat
  {
    match c
    case Low => 0
    case Medium => 1
    case High => 2
    case Critical => 3
  }

  /** `get_risk_category`: the quarter of [0, 1] the score falls in; a score
      on a cut point belongs to the higher category, and anything from 0.75
      up (including scores above 1) is critical. */
  function GetRiskCategory(score: real): (c: RiskCategory)
    ensures c == Low <==> score < 0.25
    ensures c == Medium <==> 0.25 <= score < 0.5
    ensures c == High <==> 0.5 <= score < 0.75
    ensures c == Critical <==> 0.75 <= score
  {
    if score < 0.25 then Low
    else if score < 0.50 then Medium
    else if score < 0.75 then High
    else Critical
  }

  /** A higher score never gets a less severe category. */
  lemma RiskCategoryMonotone(s1: real, s2: real)
    requires s1 <= s2
    ensures Severity(GetRiskCategory(s1)) <= Severity(GetRiskCategory(s2))
  {
  }

  // ---------------------------------------------------------------------------
  // Class weights
  // ---------------------------------------------------------------------------

  function MaxOne(k: nat): (m: nat)
    ensures m >= 1 && m >= k
  {
    if k >= 1 then k else 1
  }

  /** `n_samples / (2 * max(n_class, 1))`. */
  function Weight(n: nat, count: nat): (w: real)
    ensures w >= 0.0
  {
    n as real / (2 * MaxOne(count)) as real
  }

  /** `compute_class_weights` of a binary target (`True` for congestion). */
  function ComputeClassWeights(y: seq<bool>): (w: map<int, real>)
    ensures w.Keys == {0, 1}
    ensures w[0] == Weight(|y|, |y| - CountTrue(y)) && w[1] == Weight(|y|, CountTrue(y))
  {
    var n := |y|;
    var positive := CountTrue(y);
    var negative := n - positive;
    map[0 := Weight(n, negative), 1 := Weight(n, positive)]
  }

  /** A present class's weight times its count is half the sample size, and
      an absent class's weight is half the sample size. */
  lemma WeightTimesCount(n: nat, count: nat)
    ensures count > 0 ==> Weight(n, count) * count as real == n as real / 2.0
    ensures count == 0 ==> Weight(n, count) == n as real / 2.0
  {
    var d := (2 * MaxOne(count)) as real;
    QuotientTimes(n as real, d);
    if count > 0 {
      assert d == 2.0 * count as real;
      assert Weight(n, count) * d == n as real;
    }
  }

  /** For a non-empty target, one class weighs at least as much as another
      exactly when it is no more frequent (counting an absent class as one). */
  lemma WeightOrder(n: nat, a: nat, b: nat)
    requires n > 0
    ensures Weight(n, a) >= Weight(n, b) <==> MaxOne(a) <= MaxOne(b)
  {
    InverseOrder(n as real, (2 * MaxOne(a)) as real, (2 * MaxOne(b)) as real);
  }

  /** Weights are inversely proportional to class frequency: the rarer
      class gets the larger weight, and a class absent from the target gets
      half the sample size. (Each present class's weight times its count is
      half the sample size by `WeightTimesCount`.) */
  lemma ClassWeightsBalance(y: seq<bool>)
    ensures var w, p, q := ComputeClassWeights(y), CountTrue(y), |y| - CountTrue(y);
      && (p == 0 ==> w[1] == |y| as real / 2.0)
      && (q == 0 ==> w[0] == |y| as real / 2.0)
      && (|y| > 0 ==> (w[1] >= w[0] <==> MaxOne(p) <= MaxOne(q)))
  {
    var p := CountTrue(y);
    WeightTimesCount(|y|, p);
    WeightTimesCount(|y|, |y| - p);
    if |y| > 0 {
      WeightOrder(|y|, p, |y| - p);
    }
  }

  /** For a positive numerator, dividing by the smaller positive quantity gives the larger quotient. */
  lemma InverseOrder(n: real, a: real, b: real)
    requires n > 0.0 && a > 0.0 && b > 0.0
    ensures n / a >= n / b <==> a <= b
  {
    var x, y := n / a, n / b;
    assert x * a == n && y * b == n;
    if a <= b {
      assert x * a == y * b;
      assert x * b >= x * a;
    } else {
      assert x * b < x * a;
    }
  }

  // ---------------------------------------------------------------------------
  // Temporal split
  // ---------------------------------------------------------------------------

  /** Python's `int(x)` of a float: truncation toward zero. */
  function TruncateToInt(x: real): (k: int)
    ensures x >= 0.0 ==> k >= 0 && k as real <= x < k as real + 1.0
    ensures x < 0.0 ==> k <= 0 && k as real - 1.0 < x <= k as real
  {
    if x >= 0.0 then x.Floor else -((-x).Floor)
  }

  /** Where a slice bound `k` cuts a sequence of length `len`: a negative
      bound counts from the end, and the result is clipped to [0, len]. */
  function SliceBound(len: nat, k: int): (b: nat)
    ensures b <= len
    ensures k >= 0 ==> b == if k <= len then k else len
    ensures k < 0 ==> b == if len + k >= 0 then len + k else 0
  {
    if k >= 0 then (if k <= len then k else len)
    else if len + k >= 0 then len + k else 0
  }

  /** `split_idx = int(len(X) * (1 - test_size))`. */
  function SplitIndex(len: nat, testSize: real): int
  {
    TruncateToInt(len as real * (1.0 - testSize))
  }

  /** `X[:split_idx], X[split_idx:]`. */
  function TemporalSplit<T>(xs: seq<T>, testSize: real := 0.2): (parts: (seq<T>, seq<T>))
    ensures parts.0 + parts.1 == xs
    ensures |parts.0| == SliceBound(|xs|, SplitIndex(|xs|, testSize))
  {
    var k := SliceBound(|xs|, SplitIndex(|xs|, testSize));
    assert xs[..k] + xs[k..] == xs;
    (xs[..k], xs[k..])
  }

  /** For a test fraction in [0, 1], the training part is the first
      `floor(len * (1 - test_size))` rows and the test part the rest: the
      two do not overlap, cover every row, and keep time order. */
  lemma TemporalSplitFraction<T>(xs: seq<T>, testSize: real)
    requires 0.0 <= testSize <= 1.0
    ensures var n, k := |xs|, |TemporalSplit(xs, testSize).0|;
      && k as real <= n as real * (1.0 - testSize) < k as real + 1.0
      && TemporalSplit(xs, testSize).0 == xs[..k]
      && TemporalSplit(xs, testSize).1 == xs[k..]
  {
    var n := |xs| as real;
    assert 0.0 <= n * (1.0 - testSize) <= n by {
      assert n * (1.0 - testSize) == n - n * testSize;
      assert 0.0 <= n * testSize <= n;
    }
    var parts := TemporalSplit(xs, testSize);
    assert parts.0 == (parts.0 + parts.1)[..|parts.0|];
  }

  // ---------------------------------------------------------------------------
  // Feature importance
  // ---------------------------------------------------------------------------

  /** The raw importance a model exposes for its kind: the absolute
      coefficients of a logistic regression, the importances of a random
      forest or gradient-boosting model, none for another kind. */
  function RawImportance(modelType: string, coefficients: seq<real>, importances: seq<real>): (r: Option<seq<real>>)
    ensures r.Some? <==> modelType in {"logistic", "rf", "gb"}
    ensures r.Some? ==> forall i | 0 <= i < |r.value| :: modelType == "logistic" ==> r.value[i] >= 0.0
  {
    if modelType == "logistic" then Some(seq(|coefficients|, i requires 0 <= i < |coefficients| =>
      if coefficients[i] < 0.0 then -coefficients[i] else coefficients[i]))
    else if modelType == "rf" || modelType == "gb" then Some(importances)
    else None
  }

  /** `importance / np.sum(importance)`. */
  function Normalised(imp: seq<real>): (r: seq<real>)
    requires Sum(imp) != 0.0
    ensures |r| == |imp| && forall i | 0 <= i < |imp| :: r[i] == imp[i] / Sum(imp)
  {
    seq(|imp|, i requires 0 <= i < |imp| => imp[i] / Sum(imp))
  }

  /** `zip(feature_names, importance)`. */
  function Zip(names: seq<string>, values: seq<real>): (z: seq<(string, real)>)
    requires |names| == |values|
    ensures |z| == |names| && forall i | 0 <= i < |names| :: z[i] == (names[i], values[i])
  {
    seq(|names|, i requires 0 <= i < |names| => (names[i], values[i]))
  }

  /** The order of `sorted(..., key=lambda x: x[1], reverse=True)`. */
  predicate MoreImportant(a: (string, real), b: (string, real))
  {
    a.1 >= b.1
  }

  lemma MoreImportantIsTotalPreorder()
    ensures TotalPreorder(MoreImportant)
  {
  }

  /** The importance dictionary `extract_feature_importance` builds from a
      vector: each feature with its share, most important first. */
  function RankImportance(names: seq<string>, imp: seq<real>): (ranked: seq<(string, real)>)
    requires |names| == |imp| && Sum(imp) != 0.0
    ensures multiset(ranked) == multiset(Zip(names, Normalised(imp)))
    ensures SortedBy(ranked, MoreImportant)
    // `sorted` is stable: the features sharing a share keep their `zip` order.
    ensures forall v :: Tied(ranked, v, MoreImportant) == Tied(Zip(names, Normalised(imp)), v, MoreImportant)
  {
    MoreImportantIsTotalPreorder();
    var z := Zip(names, Normalised(imp));
    assert forall v :: Tied(Sort(z, MoreImportant), v, MoreImportant) == Tied(z, v, MoreImportant) by {
      forall v ensures Tied(Sort(z, MoreImportant), v, MoreImportant) == Tied(z, v, MoreImportant) {
        SortStable(z, v, MoreImportant);
      }
    }
    Sort(z, MoreImportant)
  }

  /** `extract_feature_importance`: `None` for an unknown model kind, the
      ranked shares otherwise. */
  function ExtractFeatureImportance(modelType: string, names: seq<string>, coefficients: seq<real>, importances: seq<real>)
    : (r: Option<seq<(string, real)>>)
    requires modelType == "logistic" ==> |names| == |coefficients|
    requires modelType == "rf" || modelType == "gb" ==> |names| == |importances|
    requires modelType in {"logistic", "rf", "gb"} ==> Sum(RawImportance(modelType, coefficients, importances).value) != 0.0
    ensures r.None? <==> modelType !in {"logistic", "rf", "gb"}
  {
    match RawImportance(modelType, coefficients, importances)
    case None => None
    case Some(imp) => Some(RankImportance(names, imp))
  }

  function Share(p: (string, real)): real
  {
    p.1
  }

  /** Dividing every term by `d` divides the sum by `d`. */
  lemma {:induction false} SumNormalised(imp: seq<real>, d: real)
    requires d != 0.0
    ensures Sum(seq(|imp|, i requires 0 <= i < |imp| => imp[i] / d)) == Sum(imp) / d
  {
    if |imp| > 0 {
      var init := imp[..|imp| - 1];
      var q := seq(|imp|, i requires 0 <= i < |imp| => imp[i] / d);
      assert q[..|q| - 1] == seq(|init|, i requires 0 <= i < |init| => init[i] / d);
      SumNormalised(init, d);
      assert Sum(q) == Sum(init) / d + imp[|imp| - 1] / d;
      assert (Sum(init) + imp[|imp| - 1]) / d == Sum(init) / d + imp[|imp| - 1] / d;
    }
  }

  lemma {:induction false} SumOfShares(names: seq<string>, values: seq<real>)
    requires |names| == |values|
    ensures SumOf(Zip(names, values), Share) == Sum(values)
  {
    if |names| > 0 {
      var n := |names| - 1;
      assert Zip(names, values)[..n] == Zip(names[..n], values[..n]);
      SumOfShares(names[..n], values[..n]);
    }
  }

  lemma {:induction false} SumNonNegative(s: seq<real>)
    requires forall k | 0 <= k < |s| :: s[k] >= 0.0
    ensures Sum(s) >= 0.0
  {
    if |s| > 0 {
      SumNonNegative(s[..|s| - 1]);
    }
  }

  /** One term of a sum of non-negative terms is at most the sum. */
  lemma {:induction false} TermAtMostSum(s: seq<real>, i: nat)
    requires i < |s| && forall k | 0 <= k < |s| :: s[k] >= 0.0
    ensures 0.0 <= s[i] <= Sum(s)
  {
    var init := s[..|s| - 1];
    if i < |s| - 1 {
      TermAtMostSum(init, i);
    } else {
      SumNonNegative(init);
    }
  }

  /** The normalised importances sum to 1. */
  lemma NormalisedSumsToOne(imp: seq<real>)
    requires Sum(imp) != 0.0
    ensures Sum(Normalised(imp)) == 1.0
  {
    var d := Sum(imp);
    assert Normalised(imp) == seq(|imp|, i requires 0 <= i < |imp| => imp[i] / d);
    SumNormalised(imp, d);
    assert d / d == 1.0;
  }

  /** The ranked shares sum to 1. */
  lemma RankedSumsToOne(names: seq<string>, imp: seq<real>)
    requires |names| == |imp| && Sum(imp) != 0.0
    ensures SumOf(RankImportance(names, imp), Share) == 1.0
  {
    var z := Zip(names, Normalised(imp));
    SumOfShares(names, Normalised(imp));
    NormalisedSumsToOne(imp);
    SumOfPermutation(z, RankImportance(names, imp), Share);
  }

  /** Every feature appears in a permutation of the zipped shares with its share. */
  lemma SharesListed(names: seq<string>, imp: seq<real>, r: seq<(string, real)>)
    requires |names| == |imp| && Sum(imp) != 0.0
    requires multiset(r) == multiset(Zip(names, Normalised(imp)))
    ensures forall k | 0 <= k < |names| :: (names[k], imp[k] / Sum(imp)) in r
  {
    var z := Zip(names, Normalised(imp));
    PermutationMembers(z, r);
    forall k | 0 <= k < |names| ensures (names[k], imp[k] / Sum(imp)) in r {
      assert z[k] in z;
    }
  }

  /** With non-negative importances every share in a permutation of the
      zipped shares lies in [0, 1]. */
  lemma SharesBounded(names: seq<string>, imp: seq<real>, r: seq<(string, real)>)
    requires |names| == |imp| && Sum(imp) != 0.0
    requires multiset(r) == multiset(Zip(names, Normalised(imp)))
    requires forall k | 0 <= k < |imp| :: imp[k] >= 0.0
    ensures forall p | p in r :: 0.0 <= p.1 <= 1.0
  {
    var z := Zip(names, Normalised(imp));
    PermutationMembers(z, r);
    forall p | p in r ensures 0.0 <= p.1 <= 1.0 {
      assert p in z;
      var k :| 0 <= k < |z| && z[k] == p;
      TermAtMostSum(imp, k);
      DivideBounds(imp[k], Sum(imp), 0.0, 1.0);
    }
  }

  /** The ranking comes in non-increasing order of share and names every
      feature with its share, each share in [0, 1] when the importances are
      non-negative. */
  lemma RankedShares(names: seq<string>, imp: seq<real>)
    requires |names| == |imp| && Sum(imp) != 0.0
    ensures var r := RankImportance(names, imp);
      && (forall i, j | 0 <= i < j < |r| :: r[i].1 >= r[j].1)
      && (forall k | 0 <= k < |names| :: (names[k], imp[k] / Sum(imp)) in r)
      && ((forall k | 0 <= k < |imp| :: imp[k] >= 0.0) ==> forall p | p in r :: 0.0 <= p.1 <= 1.0)
  {
    var r := RankImportance(names, imp);
    SharesListed(names, imp, r);
    if forall k | 0 <= k < |imp| :: imp[k] >= 0.0 {
      SharesBounded(names, imp, r);
    }
  }

  // ---------------------------------------------------------------------------
  // Top features
  // ---------------------------------------------------------------------------

  /** `get_top_features`: `[]` without importances, otherwise
      `list(importance.items())[:n]` (a negative `n` drops entries from the end). */
  function GetTopFeatures(importance: Option<seq<(string, real)>>, n: int := 10): (top: seq<(string, real)>)
    ensures importance.None? ==> top == []
    ensures importance.Some? ==>
      && |top| == SliceBound(|importance.value|, n)
      && top == importance.value[..|top|]
  {
    match importance
    case None => []
    case Some(items) => items[..SliceBound(|items|, n)]
  }

  /** From ranked importances, the top `n` are the first `min(n, len)` and
      none of the others is more important than any of them. */
  lemma TopFeaturesAreMostImportant(ranked: seq<(string, real)>, n: nat)
    requires SortedBy(ranked, MoreImportant)
    ensures |GetTopFeatures(Some(ranked), n)| == if n <= |ranked| then n else |ranked|
    ensures forall p, q | p in GetTopFeatures(Some(ranked), n) && q in ranked[|GetTopFeatures(Some(ranked), n)|..] ::
      p.1 >= q.1
  {
    var top := GetTopFeatures(Some(ranked), n);
    forall p, q | p in top && q in ranked[|top|..] ensures p.1 >= q.1 {
      var i :| 0 <= i < |top| && top[i] == p;
      var j :| 0 <= j < |ranked| - |top| && ranked[|top|..][j] == q;
      assert ranked[i] == p && ranked[|top| + j] == q;
    }
  }

  // ---------------------------------------------------------------------------
  // Model comparison
  // ---------------------------------------------------------------------------

  datatype ModelMetrics = ModelMetrics(accuracy: real, precision: real, recall: real, f1Score: real, rocAuc: real)

  /** A trained model as far as the comparison reads it. */
  datatype TrainedModel = TrainedModel(name: string, metrics: ModelMetrics)

  /** One row of the comparison table. */
  datatype MetricsRow = MetricsRow(model: string, accuracy: real, precision: real, recall: real, f1Score: real, rocAuc: real)

  /** `model.metrics.to_dict()` with `m["model"] = model.name`, keeping
      the exact metrics where `to_dict` rounds them to 4 decimals. */
  function RowOf(m: TrainedModel): MetricsRow
  {
    MetricsRow(m.name, m.metrics.accuracy, m.metrics.precision, m.metrics.recall, m.metrics.f1Score, m.metrics.rocAuc)
  }

  function RocAucs(rows: seq<MetricsRow>): (r: seq<real>)
    ensures |r| == |rows| && forall i | 0 <= i < |rows| :: r[i] == rows[i].rocAuc
  {
    seq(|rows|, i requires 0 <= i < |rows| => rows[i].rocAuc)
  }

  /** `idxmax()`: the first position of the largest value. */
  function FirstMaxIndex(s: seq<real>): (i: nat)
    requires |s| > 0
    ensures i < |s|
    ensures forall j | 0 <= j < |s| :: s[j] <= s[i]
    ensures forall j | 0 <= j < i :: s[j] < s[i]
  {
    if |s| == 1 then 0
    else
      var k := FirstMaxIndex(s[..|s| - 1]);
      if s[|s| - 1] > s[k] then |s| - 1 else k
  }

  /** `compare_models`: one table row per model in dictionary order, and the
      key of the first model with the largest ROC-AUC. An empty dictionary
      gives an empty table, whose column selection raises `KeyError`. */
  method CompareModels(models: seq<(string, TrainedModel)>) returns (best: Result<string>, table: seq<MetricsRow>)
    ensures |table| == |models| && forall i | 0 <= i < |models| :: table[i] == RowOf(models[i].1)
    ensures |models| == 0 ==> best.Failure? && best.error.KeyError?
    ensures |models| > 0 ==> best == Success(models[FirstMaxIndex(RocAucs(table))].0)
  {
    table := [];
    for i := 0 to |models|
      invariant |table| == i && forall k | 0 <= k < i :: table[k] == RowOf(models[k].1)
    {
      table := table + [RowOf(models[i].1)];
    }
    if |table| == 0 {
      best := Failure(KeyError(["model", "accuracy", "precision", "recall", "f1_score", "roc_auc"]));
    } else {
      var bestIdx := FirstMaxIndex(RocAucs(table));
      best := Success(models[bestIdx].0);
    }
  }

  /** The chosen model's ROC-AUC is at least every other model's, and every
      model listed before it has a strictly smaller one. */
  lemma BestModelHasHighestRocAuc(models: seq<(string, TrainedModel)>)
    requires |models| > 0
    ensures var table := seq(|models|, i requires 0 <= i < |models| => RowOf(models[i].1));
      var b := FirstMaxIndex(RocAucs(table));
      && (forall j | 0 <= j < |models| :: models[j].1.metrics.rocAuc <= models[b].1.metrics.rocAuc)
      && (forall j | 0 <= j < b :: models[j].1.metrics.rocAuc < models[b].1.metrics.rocAuc)
  {
    var table := seq(|models|, i requires 0 <= i < |models| => RowOf(models[i].1));
    var b := FirstMaxIndex(RocAucs(table));
    forall j | 0 <= j < |models| ensures RocAucs(table)[j] == models[j].1.metrics.rocAuc {
    }
  }
}
