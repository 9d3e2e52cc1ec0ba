/**
 * Renormalisation in the userscript's weighted total: the grade is the
 * weighted sum divided by the weight actually used, so multiplying every
 * weight by the same positive factor leaves it unchanged.
 */
module Scaling {
  import opened Records
  import opened UserScript

  /** Every weight multiplied by k. */
  function Scaled(weights: map<string, real>, k: real): map<string, real>
  {
    map c | c in weights :: weights[c] * k
  }

  lemma ScaledCounts(t: CategoryTotals, weights: map<string, real>, k: real)
    requires k > 0.0
    ensures Counts(t, Scaled(weights, k)) <==> Counts(t, weights)
    ensures Counts(t, weights) ==> Scaled(weights, k)[t.category] == weights[t.category] * k
  {
    if t.category in weights {
      var w := weights[t.category];
      assert Scaled(weights, k)[t.category] == w * k;
      assert w * k == 0.0 <==> w == 0.0;
    }
  }

  lemma ScaledTerm(r: real, p: real, w: real, k: real)
    requires p > 0.0
    ensures r / p * (w * k) == k * (r / p * w)
  {
  }

  lemma {:induction false} ScaledSum(grades: seq<CategoryTotals>, weights: map<string, real>, k: real)
    requires k > 0.0
    ensures WeightedSum(grades, Scaled(weights, k)) == k * WeightedSum(grades, weights)
  {
    if grades != [] {
      var t := grades[|grades| - 1];
      ScaledSum(grades[..|grades| - 1], weights, k);
      ScaledCounts(t, weights, k);
      if Counts(t, weights) {
        ScaledTerm(t.received, t.possible, weights[t.category], k);
      }
    }
  }

  lemma {:induction false} ScaledTotal(grades: seq<CategoryTotals>, weights: map<string, real>, k: real)
    requires k > 0.0
    ensures TotalWeight(grades, Scaled(weights, k)) == k * TotalWeight(grades, weights)
  {
    if grades != [] {
      var t := grades[|grades| - 1];
      var init := grades[..|grades| - 1];
      ScaledTotal(init, weights, k);
      ScaledWeightTerm(t, weights, k);
      Distribute(k, TotalWeight(init, weights), if Counts(t, weights) then weights[t.category] else 0.0);
    }
  }

  lemma ScaledWeightTerm(t: CategoryTotals, weights: map<string, real>, k: real)
    requires k > 0.0
    ensures var scaled := Scaled(weights, k);
      (if Counts(t, scaled) then scaled[t.category] else 0.0) == k * (if Counts(t, weights) then weights[t.category] else 0.0)
  {
    ScaledCounts(t, weights, k);
  }

  lemma Distribute(k: real, a: real, b: real)
    ensures k * a + k * b == k * (a + b)
  {
  }

  /** Renormalisation makes only the ratios of the weights matter: scaling them all leaves the grade unchanged. */
  lemma ScaleInvariant(grades: seq<CategoryTotals>, weights: map<string, real>, k: real)
    requires k > 0.0
    ensures FinalGrade(Scaled(weights, k), grades) == FinalGrade(weights, grades)
  {
    ScaledSize(weights, k);
    if |weights| > 0 {
      WeightedPercentScaled(grades, weights, k);
    }
  }

  lemma WeightedPercentScaled(grades: seq<CategoryTotals>, weights: map<string, real>, k: real)
    requires k > 0.0
    ensures WeightedPercent(grades, Scaled(weights, k)) == WeightedPercent(grades, weights)
  {
    var s, t := WeightedSum(grades, weights), TotalWeight(grades, weights);
    var ks, kt := WeightedSum(grades, Scaled(weights, k)), TotalWeight(grades, Scaled(weights, k));
    ScaledSumsAre(grades, weights, k, s, t, ks, kt);
    RatioScales(s, t, ks, kt, k);
    SameRenormalised(grades, weights, Scaled(weights, k), s, t, ks, kt);
  }

  /** Scaling every weight by k scales both sums by k. */
  lemma ScaledSums(grades: seq<CategoryTotals>, weights: map<string, real>, k: real)
    requires k > 0.0
    ensures WeightedSum(grades, Scaled(weights, k)) == k * WeightedSum(grades, weights)
    ensures TotalWeight(grades, Scaled(weights, k)) == k * TotalWeight(grades, weights)
  {
    ScaledSum(grades, weights, k);
    ScaledTotal(grades, weights, k);
  }

  lemma ScaledSumsAre(grades: seq<CategoryTotals>, weights: map<string, real>, k: real, s: real, t: real, ks: real, kt: real)
    requires k > 0.0
    requires s == WeightedSum(grades, weights) && t == TotalWeight(grades, weights)
    requires ks == WeightedSum(grades, Scaled(weights, k)) && kt == TotalWeight(grades, Scaled(weights, k))
    ensures ks == k * s && kt == k * t
  {
    ScaledSums(grades, weights, k);
  }

  lemma SameRenormalised(grades: seq<CategoryTotals>, weights: map<string, real>, other: map<string, real>, s: real, t: real, os: real, ot: real)
    requires s == WeightedSum(grades, weights) && t == TotalWeight(grades, weights)
    requires os == WeightedSum(grades, other) && ot == TotalWeight(grades, other)
    requires Renormalised(os, ot) == Renormalised(s, t)
    ensures WeightedPercent(grades, other) == WeightedPercent(grades, weights)
  {
  }

  lemma RatioScales(s: real, t: real, ks: real, kt: real, k: real)
    requires k > 0.0 && ks == k * s && kt == k * t
    ensures Renormalised(ks, kt) == Renormalised(s, t)
  {
    if t > 0.0 {
      PercentScales(k, s, t);
    } else {
      NotPositiveScaled(k, t);
    }
  }

  lemma ScaledSize(weights: map<string, real>, k: real)
    ensures |Scaled(weights, k)| == |weights|
  {
    assert Scaled(weights, k).Keys == weights.Keys;
  }

  lemma NotPositiveScaled(k: real, t: real)
    requires k > 0.0 && t <= 0.0
    ensures k * t <= 0.0
  {
  }

  lemma PercentScales(k: real, s: real, t: real)
    requires k > 0.0 && t > 0.0
    ensures k * t > 0.0
    ensures (k * s) * 100.0 / (k * t) == s * 100.0 / t
  {
    var q1, q2 := (k * s) * 100.0 / (k * t), s * 100.0 / t;
    assert q1 * (k * t) == (k * s) * 100.0;
    assert q2 * t == s * 100.0;
    assert (q1 - q2) * (k * t) == 0.0;
  }
}
