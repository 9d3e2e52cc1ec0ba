/**
 * The single-file userscript CanvasEnableTotals.user.js where it differs
 * from modules/core.js: no assignment cache, an unweighted total over the
 * categories with points possible only, a weighted total renormalised by
 * the weight actually used, and the default weights read from Canvas's
 * assignment-group table.
 */
module UserScript {
  import opened Wrappers
  import opened Records
  import opened Policies
  import opened Decimal
  import Core

  // ---------------------------------------------------------------------------
  // Grades (extractAllAssignments, extractGrades)
  // ---------------------------------------------------------------------------

  /** `extractAllAssignments` without a cache: no table gives no groups. */
  method ExtractAllAssignments(weights: map<string, real>, table: Option<seq<TableRow>>) returns (groups: seq<Group>)
    ensures table.None? ==> groups == []
    ensures table.Some? ==> groups == Core.Grouped(table.value, weights)
    ensures Core.DistinctCategories(groups)
  {
    groups := [];
    if table.Some? {
      groups := Core.GroupAssignments(table.value, weights);
      Core.GroupedDistinct(table.value, weights);
    }
  }

  /** `extractGrades`: every category's totals after its policy. */
  method ExtractGrades(weights: map<string, real>, table: Option<seq<TableRow>>, policies: Option<map<string, Policy>>)
    returns (totals: seq<CategoryTotals>)
    ensures table.None? ==> totals == []
    ensures table.Some? ==> (|totals| == |Core.Grouped(table.value, weights)|
      && forall i :: 0 <= i < |totals| ==> totals[i] == Core.TotalsOf(Core.Grouped(table.value, weights)[i], policies))
  {
    var groups := ExtractAllAssignments(weights, table);
    totals := Core.TotalsByCategory(groups, policies);
  }

  // ---------------------------------------------------------------------------
  // The final grade (calculateFinalGrade)
  // ---------------------------------------------------------------------------

  /** The categories with points possible. */
  function Graded(grades: seq<CategoryTotals>): seq<CategoryTotals>
  {
    if grades == [] then []
    else Graded(grades[..|grades| - 1]) + (if grades[|grades| - 1].possible > 0.0 then [grades[|grades| - 1]] else [])
  }

  /** Points earned over points possible in the categories with points possible, as a percentage. */
  function UnweightedPercent(grades: seq<CategoryTotals>): real
  {
    Core.UnweightedPercent(Graded(grades))
  }

  /** A category counts when it has points possible and a weight that is present and not 0. */
  predicate Counts(t: CategoryTotals, weights: map<string, real>)
  {
    t.possible > 0.0 && t.category in weights && weights[t.category] != 0.0
  }

  function WeightedSum(grades: seq<CategoryTotals>, weights: map<string, real>): real
  {
    if grades == [] then 0.0
    else
      var t := grades[|grades| - 1];
      WeightedSum(grades[..|grades| - 1], weights) + (if Counts(t, weights) then t.received / t.possible * weights[t.category] else 0.0)
  }

  function TotalWeight(grades: seq<CategoryTotals>, weights: map<string, real>): real
  {
    if grades == [] then 0.0
    else
      var t := grades[|grades| - 1];
      TotalWeight(grades[..|grades| - 1], weights) + (if Counts(t, weights) then weights[t.category] else 0.0)
  }

  /** The weighted result divided by the weight actually used; 0 when that weight is not positive. */
  function WeightedPercent(grades: seq<CategoryTotals>, weights: map<string, real>): real
  {
    Renormalised(WeightedSum(grades, weights), TotalWeight(grades, weights))
  }

  /** `sum * 100 / used`, guarded: 0 when the weight used is not positive. */
  function Renormalised(sum: real, used: real): real
  {
    if used > 0.0 then sum * 100.0 / used else 0.0
  }

  function FinalGrade(weights: map<string, real>, grades: seq<CategoryTotals>): real
  {
    if |weights| == 0 then UnweightedPercent(grades) else WeightedPercent(grades, weights)
  }

  /** `calculateFinalGrade` (its number; the text is display). */
  method CalculateFinalGrade(weights: map<string, real>, grades: seq<CategoryTotals>) returns (finalGrade: real)
    ensures finalGrade == FinalGrade(weights, grades)
  {
    if |weights| == 0 {
      var received, possible := SumGraded(grades);
      finalGrade := if possible > 0.0 then received / possible * 100.0 else 0.0;
    } else {
      var sum, totalWeight := SumWeighted(grades, weights);
      finalGrade := if totalWeight > 0.0 then sum * 100.0 / totalWeight else 0.0;
    }
  }

  /** The unweighted loop: points over the categories with points possible. */
  method SumGraded(grades: seq<CategoryTotals>) returns (received: real, possible: real)
    ensures received == Core.TotalReceivedOf(Graded(grades))
    ensures possible == Core.TotalPossibleOf(Graded(grades))
  {
    received, possible := 0.0, 0.0;
    for i := 0 to |grades|
      invariant received == Core.TotalReceivedOf(Graded(grades[..i]))
      invariant possible == Core.TotalPossibleOf(Graded(grades[..i]))
    {
      GradedStep(grades, i);
      if grades[i].possible > 0.0 {
        received := received + grades[i].received;
        possible := possible + grades[i].possible;
      }
    }
    assert grades[..|grades|] == grades;
  }

  lemma GradedStep(grades: seq<CategoryTotals>, i: nat)
    requires i < |grades|
    ensures var before, after := Graded(grades[..i]), Graded(grades[..i + 1]);
      && (grades[i].possible > 0.0 ==>
            (Core.TotalReceivedOf(after) == Core.TotalReceivedOf(before) + grades[i].received
             && Core.TotalPossibleOf(after) == Core.TotalPossibleOf(before) + grades[i].possible))
      && (grades[i].possible <= 0.0 ==> after == before)
  {
    assert grades[..i + 1][..i] == grades[..i];
    var before := Graded(grades[..i]);
    if grades[i].possible > 0.0 {
      assert Graded(grades[..i + 1]) == before + [grades[i]];
      assert (before + [grades[i]])[..|before|] == before;
    } else {
      assert Graded(grades[..i + 1]) == before + [];
    }
  }

  /** The weighted loop: Σ fraction × weight and the weight used, over the categories that count. */
  method SumWeighted(grades: seq<CategoryTotals>, weights: map<string, real>) returns (sum: real, totalWeight: real)
    ensures sum == WeightedSum(grades, weights)
    ensures totalWeight == TotalWeight(grades, weights)
  {
    sum, totalWeight := 0.0, 0.0;
    for i := 0 to |grades|
      invariant sum == WeightedSum(grades[..i], weights)
      invariant totalWeight == TotalWeight(grades[..i], weights)
    {
      assert grades[..i + 1][..i] == grades[..i];
      if grades[i].possible <= 0.0 {
        continue;
      }
      var category := grades[i].category;
      if category !in weights || weights[category] == 0.0 {
        continue;
      }
      totalWeight := totalWeight + weights[category];
      sum := sum + grades[i].received / grades[i].possible * weights[category];
    }
    assert grades[..|grades|] == grades;
  }

  predicate NonNegativeWeights(weights: map<string, real>)
  {
    forall c :: c in weights ==> weights[c] >= 0.0
  }

  lemma {:induction false} GradedWellFormed(grades: seq<CategoryTotals>)
    requires Core.WellFormed(grades)
    ensures Core.WellFormed(Graded(grades))
  {
    if grades != [] {
      GradedWellFormed(grades[..|grades| - 1]);
    }
  }

  /** With at most full marks everywhere, the unweighted grade lies between 0 and 100. */
  lemma UnweightedBounds(grades: seq<CategoryTotals>)
    requires Core.WellFormed(grades)
    ensures 0.0 <= UnweightedPercent(grades) <= 100.0
  {
    GradedWellFormed(grades);
    Core.UnweightedBounds(Graded(grades));
  }

  lemma {:induction false} GradedKeepsPositive(grades: seq<CategoryTotals>)
    requires forall i :: 0 <= i < |grades| ==> grades[i].possible > 0.0
    ensures Graded(grades) == grades
  {
    if grades != [] {
      GradedKeepsPositive(grades[..|grades| - 1]);
    }
  }

  /** When every category has points possible, both scripts give the same unweighted grade. */
  lemma UnweightedAgreesWithCore(grades: seq<CategoryTotals>)
    requires forall i :: 0 <= i < |grades| ==> grades[i].possible > 0.0
    ensures UnweightedPercent(grades) == Core.FinalGrade(map[], grades)
  {
    GradedKeepsPositive(grades);
  }

  lemma {:induction false} WeightedSumBounded(grades: seq<CategoryTotals>, weights: map<string, real>)
    requires Core.WellFormed(grades) && NonNegativeWeights(weights)
    ensures 0.0 <= WeightedSum(grades, weights) <= TotalWeight(grades, weights)
  {
    if grades != [] {
      var init, t := grades[..|grades| - 1], grades[|grades| - 1];
      Core.WellFormedInit(grades);
      WeightedSumBounded(init, weights);
      var ds := WeightedSum(grades, weights) - WeightedSum(init, weights);
      var du := TotalWeight(grades, weights) - TotalWeight(init, weights);
      assert 0.0 <= ds <= du by {
        if Counts(t, weights) {
          var w := weights[t.category];
          assert w > 0.0;
          var x := t.received / t.possible * w;
          Core.FractionTimesWeight(t.received, t.possible, w, x);
          assert ds == x;
          assert du == w;
        } else {
          assert ds == du == 0.0;
        }
      }
    }
  }

  lemma PercentOfAtMost(s: real, t: real)
    requires 0.0 <= s <= t && t > 0.0
    ensures 0.0 <= s * 100.0 / t <= 100.0
  {
    var q := s * 100.0 / t;
    assert q * t == s * 100.0;
  }

  /** Renormalisation keeps a weighted grade with non-negative weights between 0 and 100. */
  lemma WeightedBounds(grades: seq<CategoryTotals>, weights: map<string, real>)
    requires Core.WellFormed(grades) && NonNegativeWeights(weights)
    ensures 0.0 <= WeightedPercent(grades, weights) <= 100.0
  {
    WeightedSumBounded(grades, weights);
    var s, t := WeightedSum(grades, weights), TotalWeight(grades, weights);
    if t > 0.0 {
      PercentOfAtMost(s, t);
    }
  }

  lemma {:induction false} FullMarksSum(grades: seq<CategoryTotals>, weights: map<string, real>)
    requires forall i :: 0 <= i < |grades| ==> grades[i].received == grades[i].possible
    ensures WeightedSum(grades, weights) == TotalWeight(grades, weights)
  {
    if grades != [] {
      FullMarksSum(grades[..|grades| - 1], weights);
    }
  }

  /** Full marks in every category give 100 whenever some weight is used. */
  lemma FullMarksGiveHundred(grades: seq<CategoryTotals>, weights: map<string, real>)
    requires forall i :: 0 <= i < |grades| ==> grades[i].received == grades[i].possible
    requires TotalWeight(grades, weights) > 0.0
    ensures WeightedPercent(grades, weights) == 100.0
  {
    FullMarksSum(grades, weights);
    PercentOfWhole(TotalWeight(grades, weights));
  }

  lemma PercentOfWhole(t: real)
    requires t > 0.0
    ensures t * 100.0 / t == 100.0
  {
    var q := t * 100.0 / t;
    assert q * t == t * 100.0;
  }

  lemma {:induction false} NothingCountsSums(grades: seq<CategoryTotals>, weights: map<string, real>)
    requires forall i :: 0 <= i < |grades| ==> !Counts(grades[i], weights)
    ensures TotalWeight(grades, weights) == 0.0
  {
    if grades != [] {
      NothingCountsSums(grades[..|grades| - 1], weights);
    }
  }

  /** Weights that are all absent or 0 for the graded categories give 0, not a division by zero. */
  lemma NothingCountsGivesZero(grades: seq<CategoryTotals>, weights: map<string, real>)
    requires forall i :: 0 <= i < |grades| ==> !Counts(grades[i], weights)
    ensures WeightedPercent(grades, weights) == 0.0
  {
    NothingCountsSums(grades, weights);
  }

  lemma {:induction false} SameCountsAsCore(grades: seq<CategoryTotals>, weights: map<string, real>)
    requires NonNegativeWeights(weights)
    ensures WeightedSum(grades, weights) == Core.WeightedSum(grades, weights)
    ensures TotalWeight(grades, weights) == Core.WeightUsed(grades, weights)
  {
    if grades != [] {
      SameCountsAsCore(grades[..|grades| - 1], weights);
    }
  }

  /**
   * With non-negative weights the two scripts count the same categories;
   * this one divides the modular script's weighted grade by the weight used
   * (and scales by 100), so the two agree exactly when that weight is 100.
   */
  lemma RenormalisesCore(grades: seq<CategoryTotals>, weights: map<string, real>)
    requires |weights| > 0 && NonNegativeWeights(weights)
    ensures Core.WeightUsed(grades, weights) > 0.0 ==>
      FinalGrade(weights, grades) == Core.FinalGrade(weights, grades) * 100.0 / Core.WeightUsed(grades, weights)
    ensures Core.WeightUsed(grades, weights) <= 0.0 ==> FinalGrade(weights, grades) == 0.0
    ensures Core.WeightUsed(grades, weights) == 100.0 ==> FinalGrade(weights, grades) == Core.FinalGrade(weights, grades)
  {
    SameCountsAsCore(grades, weights);
  }

  // ---------------------------------------------------------------------------
  // Default weights (extractDefaultWeights)
  // ---------------------------------------------------------------------------

  /** A row of the assignment-group weight table: the label cell and the weight cell's trimmed text. */
  datatype DefaultWeightRow = DefaultWeightRow(category: Option<string>, weightText: Option<string>)

  /** Both cells are there and the weight text holds a percentage. */
  predicate Read(row: DefaultWeightRow)
  {
    row.category.Some? && row.weightText.Some? && FindPercent(row.weightText.value).Some?
  }

  /** The weights the rows give, a later row overwriting an earlier one with the same label. */
  function DefaultWeightsFrom(rows: seq<DefaultWeightRow>): map<string, real>
  {
    if rows == [] then map[]
    else
      var m := DefaultWeightsFrom(rows[..|rows| - 1]);
      var row := rows[|rows| - 1];
      if Read(row) then m[row.category.value := FindPercent(row.weightText.value).value] else m
  }

  /** `extractDefaultWeights`: no table gives an empty map, so the unweighted calculation. */
  method ExtractDefaultWeights(table: Option<seq<DefaultWeightRow>>) returns (weights: map<string, real>)
    ensures table.None? ==> weights == map[]
    ensures table.Some? ==> weights == DefaultWeightsFrom(table.value)
  {
    weights := map[];
    if table.None? {
      return;
    }
    var rows := table.value;
    for i := 0 to |rows|
      invariant weights == DefaultWeightsFrom(rows[..i])
    {
      assert rows[..i + 1][..i] == rows[..i];
      var row := rows[i];
      if row.category.Some? && row.weightText.Some? {
        var weightMatch := FindPercent(row.weightText.value);
        if weightMatch.Some? {
          weights := weights[row.category.value := weightMatch.value];
        }
      }
    }
    assert rows[..|rows|] == rows;
  }

  /**
   * A label has a default weight exactly when some row with that label has
   * a percentage in its weight cell, and the weight is never negative (the
   * pattern has no sign).
   */
  lemma {:induction false} DefaultWeightsRead(rows: seq<DefaultWeightRow>, c: string)
    ensures c in DefaultWeightsFrom(rows) ==> DefaultWeightsFrom(rows)[c] >= 0.0
    ensures c in DefaultWeightsFrom(rows) <==> exists i :: 0 <= i < |rows| && Read(rows[i]) && rows[i].category.value == c
  {
    if rows != [] {
      var init := rows[..|rows| - 1];
      DefaultWeightsRead(init, c);
      var n := |rows| - 1;
      if !(Read(rows[n]) && rows[n].category.value == c) {
        if exists i :: 0 <= i < |rows| && Read(rows[i]) && rows[i].category.value == c {
          var i :| 0 <= i < |rows| && Read(rows[i]) && rows[i].category.value == c;
          assert init[i] == rows[i];
        }
        if exists i :: 0 <= i < |init| && Read(init[i]) && init[i].category.value == c {
          var i :| 0 <= i < |init| && Read(init[i]) && init[i].category.value == c;
          assert rows[i] == init[i];
        }
      }
    }
  }

  /** A label's default weight is the one read from the last row with that label and a percentage. */
  lemma {:induction false} DefaultWeightsLastRow(rows: seq<DefaultWeightRow>, c: string)
    requires c in DefaultWeightsFrom(rows)
    ensures exists i :: (0 <= i < |rows| && Read(rows[i]) && rows[i].category.value == c
      && DefaultWeightsFrom(rows)[c] == FindPercent(rows[i].weightText.value).value
      && forall j :: i < j < |rows| ==> !(Read(rows[j]) && rows[j].category.value == c))
  {
    var i := LastReadRow(rows, c);
  }

  /** The index of the last row that sets the label, with what DefaultWeightsLastRow states about it. */
  lemma {:induction false} LastReadRow(rows: seq<DefaultWeightRow>, c: string) returns (i: nat)
    requires c in DefaultWeightsFrom(rows)
    ensures i < |rows| && Read(rows[i]) && rows[i].category.value == c
    ensures DefaultWeightsFrom(rows)[c] == FindPercent(rows[i].weightText.value).value
    ensures forall j :: i < j < |rows| ==> !(Read(rows[j]) && rows[j].category.value == c)
    decreases |rows|
  {
    assert rows != [];
    var init, n := rows[..|rows| - 1], |rows| - 1;
    if Read(rows[n]) && rows[n].category.value == c {
      i := n;
    } else {
      assert c in DefaultWeightsFrom(init) && DefaultWeightsFrom(rows)[c] == DefaultWeightsFrom(init)[c];
      i := LastReadRow(init, c);
      assert rows[i] == init[i];
      forall j | i < j < |rows| ensures !(Read(rows[j]) && rows[j].category.value == c) {
        if j < n {
          assert rows[j] == init[j];
        }
      }
    }
  }

  /** "Homework 40%" gives Homework a weight of 40. */
  lemma DefaultWeightExample()
    ensures DefaultWeightsFrom([DefaultWeightRow(Some("Homework"), Some("40%"))]) == map["Homework" := 40.0]
  {
    WholePercentRoundTrip(40);
    assert NatToDigits(40) + "%" == "40%";
    assert [DefaultWeightRow(Some("Homework"), Some("40%"))][..0] == [];
  }

  /** A weight cell without '%' gives its label no weight. */
  lemma NoPercentExample()
    ensures DefaultWeightsFrom([DefaultWeightRow(Some("Exams"), Some("n/a"))]) == map[]
  {
    NoPercentNoMatch("n/a");
    assert [DefaultWeightRow(Some("Exams"), Some("n/a"))][..0] == [];
  }
}
