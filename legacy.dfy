/**
 * The original script CanvasEnableTotals.js: weights read only when Canvas
 * has its own totals disabled, per-category totals accumulated in place
 * with JavaScript number arithmetic (a failed parse poisons the sum), and
 * a final grade renormalised by the weight used without a zero guard.
 */
module Legacy {
  import opened Wrappers
  import opened Records
  import opened Decimal
  import UserScript

  /** A JavaScript number as far as these sums need: a finite value, or NaN (or an infinity). */
  datatype Num = Num(value: real) | NotFinite
  {
    function Add(other: Num): (r: Num)
      ensures r.Num? <==> this.Num? && other.Num?
      ensures r.Num? ==> r.value == this.value + other.value
    {
      if this.Num? && other.Num? then Num(this.value + other.value) else NotFinite
    }
  }

  /** `parseFloat` of a cell's text. */
  function ParseNum(cell: TextCell): Num
  {
    if cell.number.Some? then Num(cell.number.value) else NotFinite
  }

  /** A category's running totals. */
  datatype LegacyTotals = LegacyTotals(category: string, received: Num, possible: Num)

  // ---------------------------------------------------------------------------
  // GetGrades
  // ---------------------------------------------------------------------------

  /**
   * What a row adds, or nothing: rows whose max text is exactly "0", whose
   * category weighs exactly 0, or whose score text holds a "-" are
   * skipped, and a row adds only when its category, score and max texts
   * are all present and non-empty. Nothing checks that they parse.
   */
  function Accepted(row: TableRow, weights: map<string, real>): (r: Option<(string, Num, Num)>)
    ensures row.maxPoints.Some? && row.maxPoints.value.text == "0" ==> r.None?
    ensures row.category.Some? && row.category.value in weights && weights[row.category.value] == 0.0 ==> r.None?
    ensures row.score.Some? && '-' in row.score.value.text ==> r.None?
    ensures r.Some? <==> (row.category.Some? && row.category.value != "" && row.score.Some? && row.score.value.text != ""
      && row.maxPoints.Some? && row.maxPoints.value.text != "" && row.maxPoints.value.text != "0"
      && !(row.category.value in weights && weights[row.category.value] == 0.0) && '-' !in row.score.value.text)
    ensures r.Some? ==> r.value == (row.category.value, ParseNum(row.score.value), ParseNum(row.maxPoints.value))
  {
    if row.maxPoints.Some? && row.maxPoints.value.text == "0" then None
    else if row.category.Some? && row.category.value in weights && weights[row.category.value] == 0.0 then None
    else if row.score.Some? && '-' in row.score.value.text then None
    else if row.category.Some? && row.category.value != "" && row.score.Some? && row.score.value.text != ""
      && row.maxPoints.Some? && row.maxPoints.value.text != "" then
      Some((row.category.value, ParseNum(row.score.value), ParseNum(row.maxPoints.value)))
    else None
  }

  /** Where the category's totals are, or -1. */
  function Find(entries: seq<LegacyTotals>, c: string): (k: int)
    ensures -1 <= k < |entries|
    ensures k >= 0 ==> entries[k].category == c
    ensures k < 0 ==> forall i :: 0 <= i < |entries| ==> entries[i].category != c
  {
    if entries == [] then -1
    else if entries[|entries| - 1].category == c then |entries| - 1
    else Find(entries[..|entries| - 1], c)
  }

  /** Add one accepted row: totals start at {0, 0} on the category's first row. */
  function Accumulate(entries: seq<LegacyTotals>, c: string, points: Num, maxPoints: Num): seq<LegacyTotals>
  {
    var k := Find(entries, c);
    if k < 0 then entries + [LegacyTotals(c, Num(0.0).Add(points), Num(0.0).Add(maxPoints))]
    else entries[k := LegacyTotals(c, entries[k].received.Add(points), entries[k].possible.Add(maxPoints))]
  }

  function LegacyGrades(rows: seq<TableRow>, weights: map<string, real>): seq<LegacyTotals>
  {
    if rows == [] then []
    else
      var entries := LegacyGrades(rows[..|rows| - 1], weights);
      match Accepted(rows[|rows| - 1], weights)
      case None => entries
      case Some((c, points, maxPoints)) => Accumulate(entries, c, points, maxPoints)
  }

  /** `GetGrades`: accumulate every accepted row into its category's totals, in place. */
  method GetGrades(weights: map<string, real>, table: Option<seq<TableRow>>) returns (gradeMap: seq<LegacyTotals>)
    ensures table.None? ==> gradeMap == []
    ensures table.Some? ==> gradeMap == LegacyGrades(table.value, weights)
  {
    gradeMap := [];
    if table.None? {
      return;
    }
    var rows := table.value;
    for i := 0 to |rows|
      invariant gradeMap == LegacyGrades(rows[..i], weights)
    {
      assert rows[..i + 1][..i] == rows[..i];
      var accepted := Accepted(rows[i], weights);
      if accepted.Some? {
        var (category, points, maxPoints) := accepted.value;
        ghost var prev := gradeMap;
        var k := Find(gradeMap, category);
        if k < 0 {
          gradeMap := gradeMap + [LegacyTotals(category, Num(0.0), Num(0.0))];
          k := |gradeMap| - 1;
        }
        var totals := gradeMap[k];
        gradeMap := gradeMap[k := LegacyTotals(category, totals.received.Add(points), totals.possible.Add(maxPoints))];
        assert gradeMap == Accumulate(prev, category, points, maxPoints);
      }
    }
    assert rows[..|rows|] == rows;
  }

  /** Whether some row is accepted for category c. */
  predicate HasAccepted(rows: seq<TableRow>, weights: map<string, real>, c: string)
  {
    if rows == [] then false
    else
      var a := Accepted(rows[|rows| - 1], weights);
      HasAccepted(rows[..|rows| - 1], weights, c) || (a.Some? && a.value.0 == c)
  }

  /** 0 plus the scores of the rows accepted for c, in row order. */
  function ReceivedFor(rows: seq<TableRow>, weights: map<string, real>, c: string): Num
  {
    if rows == [] then Num(0.0)
    else
      var a := Accepted(rows[|rows| - 1], weights);
      ReceivedFor(rows[..|rows| - 1], weights, c).Add(if a.Some? && a.value.0 == c then a.value.1 else Num(0.0))
  }

  /** 0 plus the max points of the rows accepted for c, in row order. */
  function PossibleFor(rows: seq<TableRow>, weights: map<string, real>, c: string): Num
  {
    if rows == [] then Num(0.0)
    else
      var a := Accepted(rows[|rows| - 1], weights);
      PossibleFor(rows[..|rows| - 1], weights, c).Add(if a.Some? && a.value.0 == c then a.value.2 else Num(0.0))
  }

  predicate DistinctCategories(entries: seq<LegacyTotals>)
  {
    forall i, j :: 0 <= i < j < |entries| ==> entries[i].category != entries[j].category
  }

  lemma {:induction false} LegacyGradesDistinct(rows: seq<TableRow>, weights: map<string, real>)
    ensures DistinctCategories(LegacyGrades(rows, weights))
  {
    if rows != [] {
      LegacyGradesDistinct(rows[..|rows| - 1], weights);
      var a := Accepted(rows[|rows| - 1], weights);
      if a.Some? {
        AccumulateDistinct(LegacyGrades(rows[..|rows| - 1], weights), a.value.0, a.value.1, a.value.2);
      }
    }
  }

  lemma AccumulateDistinct(entries: seq<LegacyTotals>, c: string, points: Num, maxPoints: Num)
    requires DistinctCategories(entries)
    ensures DistinctCategories(Accumulate(entries, c, points, maxPoints))
  {
    var k := Find(entries, c);
    var r := Accumulate(entries, c, points, maxPoints);
    if k < 0 {
      assert forall i :: 0 <= i < |entries| ==> r[i] == entries[i];
    } else {
      assert forall i :: 0 <= i < |entries| ==> r[i].category == entries[i].category;
    }
  }

  /** Without an accepted row, a category's sums stay at 0. */
  lemma {:induction false} NothingAcceptedSumsZero(rows: seq<TableRow>, weights: map<string, real>, c: string)
    requires !HasAccepted(rows, weights, c)
    ensures ReceivedFor(rows, weights, c) == Num(0.0) && PossibleFor(rows, weights, c) == Num(0.0)
  {
    if rows != [] {
      NothingAcceptedSumsZero(rows[..|rows| - 1], weights, c);
    }
  }

  /** Accumulating into a category gives it totals and keeps every other category's. */
  lemma AccumulateFinds(entries: seq<LegacyTotals>, added: string, points: Num, maxPoints: Num, c: string)
    ensures Find(Accumulate(entries, added, points, maxPoints), c) >= 0 <==> c == added || Find(entries, c) >= 0
  {
    var g := Accumulate(entries, added, points, maxPoints);
    var k := Find(entries, added);
    if c == added {
      if k < 0 {
        assert g[|entries|].category == c;
      } else {
        assert g[k].category == c;
      }
    } else {
      if Find(entries, c) >= 0 {
        assert g[Find(entries, c)].category == c;
      }
      if Find(g, c) >= 0 {
        var j := Find(g, c);
        assert j < |entries| && entries[j].category == c;
      }
    }
  }

  /** A category has totals exactly when some row is accepted for it. */
  lemma {:induction false} LegacyGradesCover(rows: seq<TableRow>, weights: map<string, real>, c: string)
    ensures HasAccepted(rows, weights, c) <==> Find(LegacyGrades(rows, weights), c) >= 0
  {
    if rows != [] {
      var init := rows[..|rows| - 1];
      LegacyGradesCover(init, weights, c);
      var a := Accepted(rows[|rows| - 1], weights);
      if a.Some? {
        AccumulateFinds(LegacyGrades(init, weights), a.value.0, a.value.1, a.value.2, c);
      }
    }
  }

  /**
   * `GetGrades` keeps one entry per category, and each entry's totals are 0
   * plus the scores and 0 plus the max points of that category's accepted
   * rows, in row order: a score that does not parse makes them NotFinite.
   */
  lemma {:induction false} LegacyGradesSums(rows: seq<TableRow>, weights: map<string, real>)
    ensures DistinctCategories(LegacyGrades(rows, weights))
    ensures AllSumsMatch(rows, weights, LegacyGrades(rows, weights))
  {
    LegacyGradesDistinct(rows, weights);
    if rows != [] {
      LegacyGradesSums(rows[..|rows| - 1], weights);
      var a := Accepted(rows[|rows| - 1], weights);
      if a.Some? {
        AcceptedRowSums(rows, weights);
      } else {
        SkippedRowSums(rows, weights);
      }
    }
  }

  /** An entry holds 0 plus its category's accepted scores and max points. */
  predicate SumsMatch(rows: seq<TableRow>, weights: map<string, real>, t: LegacyTotals)
  {
    t.received == ReceivedFor(rows, weights, t.category) && t.possible == PossibleFor(rows, weights, t.category)
  }

  predicate AllSumsMatch(rows: seq<TableRow>, weights: map<string, real>, entries: seq<LegacyTotals>)
  {
    forall i :: 0 <= i < |entries| ==> SumsMatch(rows, weights, entries[i])
  }

  /** A row not accepted for d leaves d's sums as they were. */
  lemma UnaffectedSums(rows: seq<TableRow>, weights: map<string, real>, d: string)
    requires rows != []
    requires Accepted(rows[|rows| - 1], weights).None? || Accepted(rows[|rows| - 1], weights).value.0 != d
    ensures ReceivedFor(rows, weights, d) == ReceivedFor(rows[..|rows| - 1], weights, d)
    ensures PossibleFor(rows, weights, d) == PossibleFor(rows[..|rows| - 1], weights, d)
  {
  }

  lemma SkippedRowSums(rows: seq<TableRow>, weights: map<string, real>)
    requires rows != [] && Accepted(rows[|rows| - 1], weights).None?
    requires AllSumsMatch(rows[..|rows| - 1], weights, LegacyGrades(rows[..|rows| - 1], weights))
    ensures AllSumsMatch(rows, weights, LegacyGrades(rows, weights))
  {
    var init := rows[..|rows| - 1];
    var g := LegacyGrades(init, weights);
    forall i | 0 <= i < |g| ensures SumsMatch(rows, weights, g[i]) {
      assert SumsMatch(init, weights, g[i]);
      UnaffectedSums(rows, weights, g[i].category);
    }
  }

  lemma AcceptedRowSums(rows: seq<TableRow>, weights: map<string, real>)
    requires rows != [] && Accepted(rows[|rows| - 1], weights).Some?
    requires DistinctCategories(LegacyGrades(rows[..|rows| - 1], weights))
    requires AllSumsMatch(rows[..|rows| - 1], weights, LegacyGrades(rows[..|rows| - 1], weights))
    ensures AllSumsMatch(rows, weights, LegacyGrades(rows, weights))
  {
    var init := rows[..|rows| - 1];
    var g := LegacyGrades(init, weights);
    var (c, p, m) := Accepted(rows[|rows| - 1], weights).value;
    var k := Find(g, c);
    var g' := Accumulate(g, c, p, m);
    assert g' == LegacyGrades(rows, weights);
    LegacyGradesCover(init, weights, c);
    if k < 0 {
      NothingAcceptedSumsZero(init, weights, c);
    }
    assert ReceivedFor(rows, weights, c) == ReceivedFor(init, weights, c).Add(p);
    assert PossibleFor(rows, weights, c) == PossibleFor(init, weights, c).Add(m);
    forall i | 0 <= i < |g'| ensures SumsMatch(rows, weights, g'[i]) {
      if i < |g| && i != k {
        assert SumsMatch(init, weights, g[i]);
        assert g'[i] == g[i] && g[i].category != c;
        UnaffectedSums(rows, weights, g[i].category);
      }
    }
  }

  // ---------------------------------------------------------------------------
  // GetFinalGrade
  // ---------------------------------------------------------------------------

  /** A category counts when its possible points are a number above 0 and it has a weight. */
  predicate Counts(t: LegacyTotals, weights: map<string, real>)
  {
    t.possible.Num? && t.possible.value > 0.0 && t.category in weights
  }

  function CategoryScore(t: LegacyTotals, weights: map<string, real>): Num
    requires Counts(t, weights)
  {
    if t.received.Num? then Num(t.received.value / t.possible.value * weights[t.category]) else NotFinite
  }

  function ScoreSum(entries: seq<LegacyTotals>, weights: map<string, real>): Num
  {
    if entries == [] then Num(0.0)
    else
      var t := entries[|entries| - 1];
      ScoreSum(entries[..|entries| - 1], weights).Add(if Counts(t, weights) then CategoryScore(t, weights) else Num(0.0))
  }

  function WeightSum(entries: seq<LegacyTotals>, weights: map<string, real>): real
  {
    if entries == [] then 0.0
    else
      var t := entries[|entries| - 1];
      WeightSum(entries[..|entries| - 1], weights) + (if Counts(t, weights) then weights[t.category] else 0.0)
  }

  /** `finalGrade * 100 / total_weight` with no guard: a zero weight sum gives NaN or an infinity. */
  function LegacyFinalGrade(weights: map<string, real>, entries: seq<LegacyTotals>): Num
  {
    var sum := ScoreSum(entries, weights);
    var used := WeightSum(entries, weights);
    if sum.NotFinite? || used == 0.0 then NotFinite else Num(sum.value * 100.0 / used)
  }

  /** One more entry extends both sums by that entry's share. */
  lemma SumsStep(entries: seq<LegacyTotals>, i: nat, weights: map<string, real>)
    requires i < |entries|
    ensures var t := entries[i];
      ScoreSum(entries[..i + 1], weights) == ScoreSum(entries[..i], weights).Add(if Counts(t, weights) then CategoryScore(t, weights) else Num(0.0))
    ensures var t := entries[i];
      WeightSum(entries[..i + 1], weights) == WeightSum(entries[..i], weights) + (if Counts(t, weights) then weights[t.category] else 0.0)
  {
    assert entries[..i + 1][..i] == entries[..i];
  }

  /** `GetFinalGrade` (its number; the text is display). */
  method GetFinalGrade(weights: map<string, real>, gradeMap: seq<LegacyTotals>) returns (finalGrade: Num)
    ensures finalGrade == LegacyFinalGrade(weights, gradeMap)
  {
    var sum, totalWeight := SumScores(weights, gradeMap);
    if sum.NotFinite? || totalWeight == 0.0 {
      finalGrade := NotFinite;
    } else {
      finalGrade := Num(sum.value * 100.0 / totalWeight);
    }
  }

  /** The loop of `GetFinalGrade`: the weighted scores and the weight of the categories that count. */
  method SumScores(weights: map<string, real>, gradeMap: seq<LegacyTotals>) returns (finalGrade: Num, totalWeight: real)
    ensures finalGrade == ScoreSum(gradeMap, weights)
    ensures totalWeight == WeightSum(gradeMap, weights)
  {
    finalGrade := Num(0.0);
    totalWeight := 0.0;
    for i := 0 to |gradeMap|
      invariant finalGrade == ScoreSum(gradeMap[..i], weights)
      invariant totalWeight == WeightSum(gradeMap[..i], weights)
    {
      SumsStep(gradeMap, i, weights);
      var totals := gradeMap[i];
      if Counts(totals, weights) {
        totalWeight := totalWeight + weights[totals.category];
        finalGrade := finalGrade.Add(CategoryScore(totals, weights));
      } else {
        finalGrade := finalGrade.Add(Num(0.0));
      }
    }
    assert gradeMap[..|gradeMap|] == gradeMap;
  }

  /** Totals with finite numbers only. */
  predicate AllFinite(entries: seq<LegacyTotals>)
  {
    forall i :: 0 <= i < |entries| ==> entries[i].received.Num? && entries[i].possible.Num?
  }

  function AsTotals(entries: seq<LegacyTotals>): (r: seq<CategoryTotals>)
    requires AllFinite(entries)
    ensures |r| == |entries|
  {
    if entries == [] then []
    else
      var t := entries[|entries| - 1];
      assert t.received.Num? && t.possible.Num?;
      AsTotals(entries[..|entries| - 1]) + [CategoryTotals(t.category, t.received.value, t.possible.value)]
  }

  lemma {:induction false} SumsAgree(entries: seq<LegacyTotals>, weights: map<string, real>)
    requires AllFinite(entries)
    ensures ScoreSum(entries, weights) == Num(UserScript.WeightedSum(AsTotals(entries), weights))
    ensures WeightSum(entries, weights) == UserScript.TotalWeight(AsTotals(entries), weights)
  {
    if entries != [] {
      var init := entries[..|entries| - 1];
      SumsAgree(init, weights);
      assert AsTotals(entries)[..|entries| - 1] == AsTotals(init);
    }
  }

  /**
   * On finite totals the legacy grade is the userscript's renormalised
   * weighted grade whenever the weight used is not 0 (a category whose
   * weight is 0 adds nothing to either sum); when it is 0 the legacy grade
   * is not a number while the userscript shows 0.
   */
  lemma AgreesWithUserScript(entries: seq<LegacyTotals>, weights: map<string, real>)
    requires AllFinite(entries) && |weights| > 0
    ensures WeightSum(entries, weights) > 0.0 ==>
      LegacyFinalGrade(weights, entries) == Num(UserScript.FinalGrade(weights, AsTotals(entries)))
    ensures WeightSum(entries, weights) == 0.0 ==>
      LegacyFinalGrade(weights, entries).NotFinite? && UserScript.FinalGrade(weights, AsTotals(entries)) == 0.0
  {
    SumsAgree(entries, weights);
  }

  /** A course with weights but nothing graded yet: the legacy total is not a number. */
  lemma NothingGradedIsNotFinite(weights: map<string, real>)
    ensures LegacyFinalGrade(weights, []) == NotFinite
    ensures UserScript.FinalGrade(weights, []) == 0.0
  {
  }

  /** One score that does not parse makes its category, and so the final grade, not a number. */
  lemma UnparsedScorePoisonsTotal()
    ensures LegacyGrades([TableRow(Some(TextCell("10", Some(10.0))), Some("Quizzes"), Some(TextCell("N/A", None)))], map["Quizzes" := 100.0])
      == [LegacyTotals("Quizzes", NotFinite, Num(10.0))]
    ensures LegacyFinalGrade(map["Quizzes" := 100.0], [LegacyTotals("Quizzes", NotFinite, Num(10.0))]) == NotFinite
  {
    var row := TableRow(Some(TextCell("10", Some(10.0))), Some("Quizzes"), Some(TextCell("N/A", None)));
    assert [row][..0] == [];
    assert Accepted(row, map["Quizzes" := 100.0]) == Some(("Quizzes", NotFinite, Num(10.0)));
    var e := [LegacyTotals("Quizzes", NotFinite, Num(10.0))];
    assert e[..0] == [];
    assert ScoreSum(e, map["Quizzes" := 100.0]) == NotFinite;
  }

  // ---------------------------------------------------------------------------
  // GetWeights
  // ---------------------------------------------------------------------------

  /** Whether `t` occurs in `s`: `String.prototype.includes`. */
  predicate Includes(s: string, t: string)
  {
    exists i :: 0 <= i <= |s| && OccursAt(s, t, i)
  }

  predicate OccursAt(s: string, t: string, i: nat)
  {
    i + |t| <= |s| && s[i..i + |t|] == t
  }

  /** A row with both cells whose weight text has no percentage: `match(...)[1]` throws. */
  predicate Throws(row: UserScript.DefaultWeightRow)
  {
    row.category.Some? && row.weightText.Some? && FindPercent(row.weightText.value).None?
  }

  /**
   * `GetWeights`: only when the totals cell says "disabled" and the weight
   * table exists is a map returned (otherwise the function returns
   * undefined, here Success(None)); a row with both cells but no
   * percentage throws, here Failure.
   */
  method GetWeights(totalText: Option<string>, table: Option<seq<UserScript.DefaultWeightRow>>)
    returns (result: Result<Option<map<string, real>>, string>)
    ensures totalText.None? || !Includes(totalText.value, "disabled") || table.None? ==> result == Success(None)
    ensures totalText.Some? && Includes(totalText.value, "disabled") && table.Some? ==>
      (result.Failure? <==> exists i :: 0 <= i < |table.value| && Throws(table.value[i]))
    ensures result.Success? && result.value.Some? ==> result.value.value == UserScript.DefaultWeightsFrom(table.value)
  {
    if totalText.None? || !Includes(totalText.value, "disabled") || table.None? {
      return Success(None);
    }
    var rows := table.value;
    var weights := map[];
    for i := 0 to |rows|
      invariant forall k :: 0 <= k < i ==> !Throws(rows[k])
      invariant weights == UserScript.DefaultWeightsFrom(rows[..i])
    {
      assert rows[..i + 1][..i] == rows[..i];
      var row := rows[i];
      if row.category.Some? && row.weightText.Some? {
        var weightMatch := FindPercent(row.weightText.value);
        if weightMatch.None? {
          return Failure("TypeError: cannot read the match of a weight without a percentage");
        }
        weights := weights[row.category.value := weightMatch.value];
      }
    }
    assert rows[..|rows|] == rows;
    return Success(Some(weights));
  }
}
