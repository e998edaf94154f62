/** The area-based confusion matrix of one predicted shape against one
    reference shape, and the agreement metrics derived from it.

    Each shape is a single-row frame, so its `areaCalculation` is its own
    area (see `Regions.AreaCalculation`). The stand-in for "all observable
    land" is one region, the parameter `env`; the partition and bound
    properties hold when it covers both shapes. The source instead boxes
    each row of the union overlay separately, so whenever the shapes
    differ it works with several overlapping boxes, not one envelope.
 */
module Metrics {
  import opened Results
  import opened Regions

  /** A set splits into the part outside `b` and the part inside it. */
  lemma SplitCard(a: Region, b: Region)
    ensures |a| == |a - b| + |a * b|
  {
    assert a == (a - b) + (a * b);
    assert (a - b) * (a * b) == {};
  }

  /** A subset as large as its superset is the superset. */
  lemma SubsetSameCard(x: Region, y: Region)
    requires x <= y
    requires |x| == |y|
    ensures x == y
  {
    SplitCard(y, x);
    assert y * x == x;
    assert y - x == {};
  }

  /** `x` overlaps `y` with all of its area exactly when it lies inside `y`. */
  lemma FullOverlapIsSubset(x: Region, y: Region)
    ensures |x * y| == |x| <==> x <= y
  {
    if |x * y| == |x| {
      SubsetSameCard(x * y, x);
    }
    if x <= y {
      assert x * y == x;
    }
  }

  /** An area divided by a non-zero area, as Python's float division would
      compute it were it exact. */
  function Quotient(n: nat, d: nat): (q: real)
    requires d > 0
    ensures q * d as real == n as real
    ensures q >= 0.0
    ensures n <= d ==> q <= 1.0
    ensures q == 1.0 <==> n == d
    ensures q == 0.0 <==> n == 0
  {
    var q := n as real / d as real;
    assert q * d as real == n as real;
    QuotientFacts(n as real, d as real, q);
    q
  }

  /** The sign and size facts of a quotient of non-negative numbers, from
      `q * d == n` alone. */
  lemma QuotientFacts(n: real, d: real, q: real)
    requires n >= 0.0 && d > 0.0 && q * d == n
    ensures q == n / d
    ensures q >= 0.0
    ensures n <= d ==> q <= 1.0
    ensures q == 1.0 <==> n == d
    ensures q == 0.0 <==> n == 0.0
  {
    var r := n / d;
    assert r * d == n;
    assert (q - r) * d == 0.0;
    assert q * d >= 0.0;
    assert (q - 1.0) * d == n - d;
  }

  /** `truePos`: the area both shapes claim. */
  function TruePos(pred: Region, ref: Region): (tp: nat)
    ensures tp <= |pred| && tp <= |ref|
    ensures tp + |pred + ref| == |pred| + |ref|
  {
    SplitCard(pred, ref);
    SplitCard(ref, pred);
    |pred * ref|
  }

  /** `falseNeg`: the area of the reference lying in the envelope minus the
      prediction. */
  function FalseNeg(pred: Region, ref: Region, env: Region): (fn: nat)
    ensures fn <= |ref|
    ensures ref <= env ==> fn + TruePos(pred, ref) == |ref|
  {
    var r := (env - pred) * ref;
    SplitCard(ref, env - pred);
    assert ref <= env ==> ref * (env - pred) == ref - pred;
    SplitCard(ref, pred);
    assert ref * pred == pred * ref;
    |r|
  }

  /** `falsePos`: the mirror image of `falseNeg`, the area of the prediction
      lying in the envelope minus the reference. */
  function FalsePos(pred: Region, ref: Region, env: Region): (fp: nat)
    ensures fp <= |pred|
    ensures pred <= env ==> fp + TruePos(pred, ref) == |pred|
  {
    var r := (env - ref) * pred;
    SplitCard(pred, env - ref);
    assert pred <= env ==> pred * (env - ref) == pred - ref;
    SplitCard(pred, ref);
    |r|
  }

  /** `trueNeg`: the area of the envelope outside both shapes. */
  function TrueNeg(pred: Region, ref: Region, env: Region): (tn: nat)
    ensures tn == |env - (pred + ref)|
    ensures tn <= |env|
  {
    assert (env - pred) * (env - ref) == env - (pred + ref);
    SplitCard(env, pred + ref);
    |(env - pred) * (env - ref)|
  }

  /** `areaTotal(feds_inst, nifc_inst)`: the area of the envelope of the
      union. Inside a covering envelope it is the area burned in either
      shape plus the area burned in neither, so it bounds both shapes. */
  function AreaTotal(pred: Region, ref: Region, env: Region): (t: nat)
    ensures pred + ref <= env ==> t == |pred + ref| + |env - (pred + ref)|
    ensures pred + ref <= env ==> |pred| <= t && |ref| <= t
  {
    SplitCard(env, pred + ref);
    assert pred + ref <= env ==> env * (pred + ref) == pred + ref;
    SplitCard(pred + ref, pred);
    assert (pred + ref) * pred == pred;
    SplitCard(pred + ref, ref);
    assert (pred + ref) * ref == ref;
    |env|
  }

  /** TP, FP, FN and TN partition the envelope, so they add up to the total
      area. */
  lemma ConfusionPartition(pred: Region, ref: Region, env: Region)
    requires pred + ref <= env
    ensures TruePos(pred, ref) + FalsePos(pred, ref, env) + FalseNeg(pred, ref, env)
            + TrueNeg(pred, ref, env) == AreaTotal(pred, ref, env)
  {
    SplitCard(env, pred + ref);
    assert env * (pred + ref) == pred + ref;
  }

  /** `ratioCalculation`: summed predicted area over summed reference area. */
  function Ratio(pred: Frame, ref: Frame): (r: Result<real, CalcError>)
    requires DistinctLabels(pred) && DistinctLabels(ref)
    ensures r.Ok? <==> AreaCalculation(pred).Ok? && AreaCalculation(ref).Ok? && SumRows(ref) > 0
    ensures r.Ok? ==> r.value >= 0.0
    ensures r.Ok? ==> r.value * SumRows(ref) as real == SumRows(pred) as real
    ensures r == Err(ZeroDivision) <==>
              AreaCalculation(pred).Ok? && AreaCalculation(ref).Ok? && SumRows(ref) == 0
  {
    match AreaCalculation(pred)
    case Err(e) => Err(e)
    case Ok(predArea) =>
      match AreaCalculation(ref)
      case Err(e) => Err(e)
      case Ok(refArea) =>
        if refArea == 0 then Err(ZeroDivision)
        else Ok(Quotient(predArea, refArea))
  }

  /** The earlier `ratioCalculation`, which reads each area with `.item()`
      and so accepts single-row frames only. */
  function ItemRatio(pred: Frame, ref: Frame): (r: Result<real, CalcError>)
    ensures r.Ok? <==> |pred| == 1 && |ref| == 1 && |ref[0].shape| > 0
    ensures r.Ok? ==> r.value * |ref[0].shape| as real == |pred[0].shape| as real
    ensures r.Err? && |pred| == 1 && |ref| == 1 ==> r.error == ZeroDivision
  {
    if |pred| != 1 || |ref| != 1 then Err(NotSingleItem)
    else if |ref[0].shape| == 0 then Err(ZeroDivision)
    else Ok(Quotient(|pred[0].shape|, |ref[0].shape|))
  }

  /** On single-row frames both versions of the ratio agree. */
  lemma RatioVersionsAgree(pred: Frame, ref: Frame)
    requires |pred| == 1 && |ref| == 1
    ensures ItemRatio(pred, ref) == Ratio(pred, ref)
  {
    assert SumRows(pred) == |pred[0].shape|;
    assert SumRows(ref) == |ref[0].shape|;
  }

  /** `accuracyCalculation`: (TN + TP) / AREA_TOTAL. */
  function Accuracy(pred: Region, ref: Region, env: Region): (r: Result<real, CalcError>)
    ensures r.Err? <==> |env| == 0
    ensures r.Ok? ==> r.value * |env| as real == (TruePos(pred, ref) + TrueNeg(pred, ref, env)) as real
    ensures r.Ok? && pred + ref <= env ==> 0.0 <= r.value <= 1.0
    ensures pred == ref && pred <= env && |env| > 0 ==> r == Ok(1.0)
  {
    var total := AreaTotal(pred, ref, env);
    if total == 0 then Err(ZeroDivision)
    else
      var agreed := TrueNeg(pred, ref, env) + TruePos(pred, ref);
      AgreedWithinTotal(pred, ref, env);
      Ok(Quotient(agreed, total))
  }

  /** Inside a covering envelope the agreed area is at most the total, and
      all of it when the shapes coincide. */
  lemma AgreedWithinTotal(pred: Region, ref: Region, env: Region)
    ensures pred + ref <= env ==> TrueNeg(pred, ref, env) + TruePos(pred, ref) <= AreaTotal(pred, ref, env)
    ensures pred == ref && pred <= env ==>
              TrueNeg(pred, ref, env) + TruePos(pred, ref) == AreaTotal(pred, ref, env)
  {
    if pred + ref <= env {
      ConfusionPartition(pred, ref, env);
    }
    if pred == ref && pred <= env {
      assert pred * ref == pred;
      assert (env - pred) * pred == {};
    }
  }

  /** `precisionCalculation`: TP over the predicted area. */
  function Precision(pred: Region, ref: Region): (r: Result<real, CalcError>)
    ensures r.Err? <==> |pred| == 0
    ensures r.Ok? ==> r.value * |pred| as real == TruePos(pred, ref) as real
    ensures r.Ok? ==> 0.0 <= r.value <= 1.0
    ensures r.Ok? ==> (r.value == 1.0 <==> pred <= ref)
  {
    if |pred| == 0 then Err(ZeroDivision)
    else
      FullOverlapIsSubset(pred, ref);
      Ok(Quotient(TruePos(pred, ref), |pred|))
  }

  /** `recallCalculation`: TP over the reference area. */
  function Recall(pred: Region, ref: Region): (r: Result<real, CalcError>)
    ensures r.Err? <==> |ref| == 0
    ensures r.Ok? ==> r.value * |ref| as real == TruePos(pred, ref) as real
    ensures r.Ok? ==> 0.0 <= r.value <= 1.0
    ensures r.Ok? ==> (r.value == 1.0 <==> ref <= pred)
  {
    if |ref| == 0 then Err(ZeroDivision)
    else
      FullOverlapIsSubset(ref, pred);
      assert pred * ref == ref * pred;
      Ok(Quotient(TruePos(pred, ref), |ref|))
  }

  /** 2pr / (p + r) with p = t/a and r = t/b is 2t / (a + b). */
  lemma HarmonicMeanOfRatios(t: real, a: real, b: real)
    requires t > 0.0 && a > 0.0 && b > 0.0
    ensures 2.0 * (t / a) * (t / b) / (t / a + t / b) == 2.0 * t / (a + b)
  {
    var p, r := t / a, t / b;
    assert p * a == t && r * b == t;
    assert p + r == t * (a + b) / (a * b);
    assert 2.0 * p * r == 2.0 * t * t / (a * b);
    calc {
      2.0 * p * r / (p + r);
      (2.0 * t * t / (a * b)) / (t * (a + b) / (a * b));
      2.0 * t / (a + b);
    }
  }

  /** `f1ScoreCalculation`: the harmonic mean of precision and recall; both
      are computed first, so either empty shape fails before the final
      division, which fails when they share no area. */
  function F1Score(pred: Region, ref: Region): (r: Result<real, CalcError>)
    ensures r.Err? <==> |pred| == 0 || |ref| == 0 || TruePos(pred, ref) == 0
    ensures r.Ok? ==> r.value == 2.0 * TruePos(pred, ref) as real / (|pred| + |ref|) as real
    ensures r.Ok? ==> 0.0 < r.value <= 1.0
  {
    match Precision(pred, ref)
    case Err(e) => Err(e)
    case Ok(p) =>
      match Recall(pred, ref)
      case Err(e) => Err(e)
      case Ok(q) =>
        var t := TruePos(pred, ref);
        F1Algebra(t, |pred|, |ref|, p, q);
        if p + q == 0.0 then Err(ZeroDivision)
        else Ok(2.0 * (p * q) / (p + q))
  }

  /** The arithmetic behind `F1Score`: with p = t/a and q = t/b the sum
      vanishes exactly when t does, and otherwise 2pq/(p+q) = 2t/(a+b). */
  lemma F1Algebra(t: nat, a: nat, b: nat, p: real, q: real)
    requires a > 0 && b > 0 && t <= a && t <= b
    requires p * a as real == t as real && q * b as real == t as real
    ensures p + q == 0.0 <==> t == 0
    ensures t > 0 ==> 2.0 * (p * q) / (p + q) == 2.0 * t as real / (a + b) as real
    ensures t > 0 ==> 0.0 < 2.0 * t as real / (a + b) as real <= 1.0
  {
    QuotientFacts(t as real, a as real, p);
    QuotientFacts(t as real, b as real, q);
    if t > 0 {
      F1Value(t as real, a as real, b as real, p, q);
    }
  }

  /** The non-degenerate case of `F1Algebra`. */
  lemma F1Value(t: real, a: real, b: real, p: real, q: real)
    requires 0.0 < t <= a && t <= b
    requires p == t / a && q == t / b
    ensures 2.0 * (p * q) / (p + q) == 2.0 * t / (a + b)
    ensures 0.0 < 2.0 * t / (a + b) <= 1.0
  {
    HarmonicMeanOfRatios(t, a, b);
    assert 2.0 * (p * q) == 2.0 * p * q;
    var f := 2.0 * t / (a + b);
    assert f * (a + b) == 2.0 * t;
    QuotientFacts(2.0 * t, a + b, f);
  }

  /** When precision equals recall, F1 equals both. */
  lemma F1OfEqualPrecisionRecall(pred: Region, ref: Region)
    requires Precision(pred, ref).Ok? && Recall(pred, ref).Ok?
    requires Precision(pred, ref) == Recall(pred, ref)
    requires TruePos(pred, ref) > 0
    ensures F1Score(pred, ref) == Precision(pred, ref)
  {
    var t := TruePos(pred, ref);
    var p := Precision(pred, ref).value;
    assert p * |pred| as real == t as real && p * |ref| as real == t as real;
    assert p > 0.0;
    assert |pred| == |ref| by {
      assert p * (|pred| as real - |ref| as real) == 0.0;
    }
    assert 2.0 * t as real / (|pred| + |ref|) as real == t as real / |pred| as real;
  }

  function SymmetricDifference(a: Region, b: Region): Region {
    (a - b) + (b - a)
  }

  /** `symmDiffRatioCalculation`: the area claimed by exactly one shape,
      relative to the reference area. */
  function SymmDiffRatio(pred: Region, ref: Region): (r: Result<real, CalcError>)
    ensures r.Err? <==> |ref| == 0
    ensures r.Ok? ==> r.value >= 0.0
    ensures r.Ok? ==> r.value * |ref| as real == |SymmetricDifference(pred, ref)| as real
    ensures r.Ok? ==> (r.value == 0.0 <==> pred == ref)
  {
    if |ref| == 0 then Err(ZeroDivision)
    else
      var d := SymmetricDifference(pred, ref);
      assert d == {} ==> pred == ref;
      Ok(Quotient(|d|, |ref|))
  }

  /** The symmetric difference is exactly the two kinds of error, so its
      area is FP + FN: the cross-check metric and the confusion matrix agree. */
  lemma SymmDiffIsFalsePosPlusFalseNeg(pred: Region, ref: Region, env: Region)
    requires pred + ref <= env
    ensures |SymmetricDifference(pred, ref)| == FalsePos(pred, ref, env) + FalseNeg(pred, ref, env)
  {
    assert (env - ref) * pred == pred - ref;
    assert (env - pred) * ref == ref - pred;
    assert (pred - ref) * (ref - pred) == {};
  }

  /** The earlier `symmDiffRatioCalculation` reads both areas with `.item()`;
      on single regions the symmetric difference is one row, and both
      versions give the same ratio, error case included. */
  lemma SymmDiffVersionsAgree(pred: Region, ref: Region)
    ensures ItemRatio([Row(0, SymmetricDifference(pred, ref))], [Row(0, ref)])
            == SymmDiffRatio(pred, ref)
  {
  }

  /** Identical non-empty shapes score perfectly on every metric. */
  lemma IdenticalShapesScorePerfectly(shape: Region, env: Region)
    requires |shape| > 0
    requires shape <= env
    ensures Precision(shape, shape) == Ok(1.0)
    ensures Recall(shape, shape) == Ok(1.0)
    ensures F1Score(shape, shape) == Ok(1.0)
    ensures Accuracy(shape, shape, env) == Ok(1.0)
    ensures SymmDiffRatio(shape, shape) == Ok(0.0)
  {
    assert shape * shape == shape;
  }
}
