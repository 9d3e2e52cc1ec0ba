/**
 * The grade engine of modules/core.js: the row filter, grouping of the
 * grade table by category behind a cache keyed on the weight map's size,
 * per-category totals after the policies, and the final grade.
 */
module Core {
  import opened Wrappers
  import opened Records
  import opened Policies
  import opened Decimal

  /**
   * `formatPercent`: two decimals, "0.00" for a value that is not finite
   * (None). Read back through the weight pattern with a '%' appended, a
   * non-negative value comes out within half a hundredth.
   */
  function FormatPercent(n: Option<real>): (r: string)
    ensures |r| >= 4 && r[|r| - 3] == '.'
    ensures n.None? ==> r == "0.00"
    ensures n.Some? && n.value >= 0.0 ==>
      FindPercent(r + "%").Some? && -0.005 < FindPercent(r + "%").value - n.value <= 0.005
  {
    match n
    case None => "0.00"
    case Some(v) =>
      if v >= 0.0 then FixedPercentRoundTrip(v); FormatFixed2(v) else FormatFixed2(v)
  }

  // ---------------------------------------------------------------------------
  // Row filter (extractGradeFromRow)
  // ---------------------------------------------------------------------------

  /** Whether the weight map gives the category a weight of exactly 0. */
  predicate ZeroWeight(weights: map<string, real>, category: string)
  {
    category in weights && weights[category] == 0.0
  }

  /**
   * `extractGradeFromRow`: the row's category and numbers, or nothing when
   * a cell is missing, the max points are 0 or not a number, the category
   * weighs exactly 0, the score text holds a "-" (not graded yet), or the
   * score is not a number.
   */
  function ExtractGradeFromRow(row: TableRow, weights: map<string, real>): (r: Option<Extracted>)
    ensures row.maxPoints.None? || row.category.None? || row.score.None? ==> r.None?
    ensures row.maxPoints.Some? && row.maxPoints.value.number in {None, Some(0.0)} ==> r.None?
    ensures row.category.Some? && ZeroWeight(weights, row.category.value) ==> r.None?
    ensures row.score.Some? && ('-' in row.score.value.text || row.score.value.number.None?) ==> r.None?
    ensures r.Some? ==> (r.value.maxPoints != 0.0
      && row.maxPoints == Some(TextCell(row.maxPoints.value.text, Some(r.value.maxPoints)))
      && row.category == Some(r.value.category)
      && row.score == Some(TextCell(row.score.value.text, Some(r.value.pointsReceived))))
  {
    if row.maxPoints.None? || row.category.None? || row.score.None? then None
    else
      var maxPoints := row.maxPoints.value.number;
      if maxPoints.None? || maxPoints.value == 0.0 then None
      else
        var category := row.category.value;
        if ZeroWeight(weights, category) then None
        else if '-' in row.score.value.text then None
        else
          var points := row.score.value.number;
          if points.None? then None
          else Some(Extracted(category, points.value, maxPoints.value))
  }

  /** A row whose cells are all there, with a non-zero max, a graded score and a non-zero weight, is kept. */
  lemma RowKept(row: TableRow, weights: map<string, real>, points: real, maxPoints: real, text: string, maxText: string, category: string)
    requires row == TableRow(Some(TextCell(maxText, Some(maxPoints))), Some(category), Some(TextCell(text, Some(points))))
    requires maxPoints != 0.0 && !ZeroWeight(weights, category) && '-' !in text
    ensures ExtractGradeFromRow(row, weights) == Some(Extracted(category, points, maxPoints))
  {
  }

  // ---------------------------------------------------------------------------
  // Grouping by category (the row loop of extractAllAssignments)
  // ---------------------------------------------------------------------------

  /** Where the category's group is, or -1: `assignments_by_category.has(category)`. */
  function IndexOf(groups: seq<Group>, c: string): (k: int)
    ensures -1 <= k < |groups|
    ensures k >= 0 ==> groups[k].category == c
    ensures k < 0 ==> forall i :: 0 <= i < |groups| ==> groups[i].category != c
  {
    if groups == [] then -1
    else if groups[|groups| - 1].category == c then |groups| - 1
    else IndexOf(groups[..|groups| - 1], c)
  }

  function RecordOf(e: Extracted): Assignment
  {
    Assignment(e.pointsReceived, e.maxPoints)
  }

  /** Push the record onto its category's group, creating the group on first sight. */
  function AddToGroups(groups: seq<Group>, e: Extracted): seq<Group>
  {
    var k := IndexOf(groups, e.category);
    if k < 0 then groups + [Group(e.category, [RecordOf(e)])]
    else groups[k := Group(e.category, groups[k].records + [RecordOf(e)])]
  }

  /** The groups the row loop builds from the table's rows, in first-sighting order. */
  function Grouped(rows: seq<TableRow>, weights: map<string, real>): seq<Group>
  {
    if rows == [] then []
    else
      var groups := Grouped(rows[..|rows| - 1], weights);
      match ExtractGradeFromRow(rows[|rows| - 1], weights)
      case None => groups
      case Some(e) => AddToGroups(groups, e)
  }

  /** The records the rows yield for one category, in row order: an independent reference for Grouped. */
  function RecordsFor(rows: seq<TableRow>, weights: map<string, real>, c: string): seq<Assignment>
  {
    if rows == [] then []
    else
      var e := ExtractGradeFromRow(rows[|rows| - 1], weights);
      RecordsFor(rows[..|rows| - 1], weights, c) + (if e.Some? && e.value.category == c then [RecordOf(e.value)] else [])
  }

  predicate DistinctCategories(groups: seq<Group>)
  {
    forall i, j :: 0 <= i < j < |groups| ==> groups[i].category != groups[j].category
  }

  /** The row loop: every kept row's record is pushed onto its category's group. */
  method GroupAssignments(rows: seq<TableRow>, weights: map<string, real>) returns (groups: seq<Group>)
    ensures groups == Grouped(rows, weights)
  {
    groups := [];
    var i := 0;
    while i < |rows|
      invariant 0 <= i <= |rows|
      invariant groups == Grouped(rows[..i], weights)
    {
      GroupedStep(rows, i, weights);
      var grade := ExtractGradeFromRow(rows[i], weights);
      if grade.Some? {
        groups := PushRecord(groups, grade.value);
      }
      i := i + 1;
    }
    assert rows[..|rows|] == rows;
  }

  /** One more row extends the grouping by that row's record, if it has one. */
  lemma GroupedStep(rows: seq<TableRow>, i: nat, weights: map<string, real>)
    requires i < |rows|
    ensures Grouped(rows[..i + 1], weights) ==
      match ExtractGradeFromRow(rows[i], weights)
      case None => Grouped(rows[..i], weights)
      case Some(e) => AddToGroups(Grouped(rows[..i], weights), e)
  {
    assert rows[..i + 1][..i] == rows[..i];
  }

  /** The push of one record: a new group at the end for a new category, else onto the existing group. */
  method PushRecord(groups: seq<Group>, e: Extracted) returns (result: seq<Group>)
    ensures result == AddToGroups(groups, e)
  {
    result := groups;
    var k := IndexOf(result, e.category);
    if k < 0 {
      result := result + [Group(e.category, [])];
      k := |result| - 1;
      assert result[k].records + [RecordOf(e)] == [RecordOf(e)];
    }
    result := result[k := Group(e.category, result[k].records + [RecordOf(e)])];
  }

  /** Grouping keeps one group per category. */
  lemma {:induction false} GroupedDistinct(rows: seq<TableRow>, weights: map<string, real>)
    ensures DistinctCategories(Grouped(rows, weights))
  {
    if rows != [] {
      GroupedDistinct(rows[..|rows| - 1], weights);
      var e := ExtractGradeFromRow(rows[|rows| - 1], weights);
      if e.Some? {
        AddToGroupsDistinct(Grouped(rows[..|rows| - 1], weights), e.value);
      }
    }
  }

  lemma AddToGroupsDistinct(groups: seq<Group>, e: Extracted)
    requires DistinctCategories(groups)
    ensures DistinctCategories(AddToGroups(groups, e))
  {
    var k := IndexOf(groups, e.category);
    var r := AddToGroups(groups, e);
    if k < 0 {
      assert forall i :: 0 <= i < |groups| ==> r[i] == groups[i];
    } else {
      assert forall i :: 0 <= i < |groups| ==> r[i].category == groups[i].category;
    }
  }

  /** A category has a group exactly when some row yields a record for it. */
  lemma {:induction false} GroupedCovers(rows: seq<TableRow>, weights: map<string, real>, c: string)
    ensures RecordsFor(rows, weights, c) != [] <==> IndexOf(Grouped(rows, weights), c) >= 0
  {
    if rows != [] {
      var init := rows[..|rows| - 1];
      GroupedCovers(init, weights, c);
      var g := Grouped(init, weights);
      var e := ExtractGradeFromRow(rows[|rows| - 1], weights);
      if e.Some? && e.value.category != c {
        var g' := AddToGroups(g, e.value);
        assert |g| <= |g'|;
        if IndexOf(g, c) >= 0 {
          assert g'[IndexOf(g, c)].category == c;
        }
        if IndexOf(g', c) >= 0 {
          var j := IndexOf(g', c);
          assert j < |g| && g[j].category == c;
        }
      } else if e.Some? {
        assert IndexOf(AddToGroups(g, e.value), c) >= 0 by {
          var k := IndexOf(g, c);
          var g' := AddToGroups(g, e.value);
          if k < 0 {
            assert g'[|g|].category == c;
          } else {
            assert g'[k].category == c;
          }
        }
      }
    }
  }

  /** Whether the row yields a record for category c. */
  predicate YieldsFor(row: TableRow, weights: map<string, real>, c: string)
  {
    var e := ExtractGradeFromRow(row, weights);
    e.Some? && e.value.category == c
  }

  /** The index of the first row that yields a record for c, or the number of rows when none does. */
  function FirstSighting(rows: seq<TableRow>, weights: map<string, real>, c: string): (r: nat)
    ensures r <= |rows|
    ensures r < |rows| ==> YieldsFor(rows[r], weights, c)
    ensures forall k :: 0 <= k < r && k < |rows| ==> !YieldsFor(rows[k], weights, c)
  {
    if rows == [] then 0
    else
      var f := FirstSighting(rows[..|rows| - 1], weights, c);
      if f < |rows| - 1 then f
      else if YieldsFor(rows[|rows| - 1], weights, c) then |rows| - 1
      else |rows|
  }

  /** A category is seen among the rows exactly when it has records. */
  lemma {:induction false} SightedIffRecords(rows: seq<TableRow>, weights: map<string, real>, c: string)
    ensures FirstSighting(rows, weights, c) < |rows| <==> RecordsFor(rows, weights, c) != []
  {
    if rows != [] {
      SightedIffRecords(rows[..|rows| - 1], weights, c);
    }
  }

  /**
   * The Map keeps its categories in the order they are first seen: every
   * group's category is seen among the rows, and an earlier group's
   * category is seen first at an earlier row.
   */
  lemma {:induction false} GroupedInFirstSightingOrder(rows: seq<TableRow>, weights: map<string, real>)
    ensures forall i :: 0 <= i < |Grouped(rows, weights)| ==>
      FirstSighting(rows, weights, Grouped(rows, weights)[i].category) < |rows|
    ensures forall i, j :: 0 <= i < j < |Grouped(rows, weights)| ==>
      FirstSighting(rows, weights, Grouped(rows, weights)[i].category) < FirstSighting(rows, weights, Grouped(rows, weights)[j].category)
  {
    if rows != [] {
      var init := rows[..|rows| - 1];
      GroupedInFirstSightingOrder(init, weights);
      var g := Grouped(init, weights);
      var e := ExtractGradeFromRow(rows[|rows| - 1], weights);
      forall i | 0 <= i < |g|
        ensures FirstSighting(rows, weights, g[i].category) == FirstSighting(init, weights, g[i].category) < |init|
      {
      }
      assert Grouped(rows, weights) == if e.Some? then AddToGroups(g, e.value) else g;
      if e.Some? && IndexOf(g, e.value.category) < 0 {
        var c := e.value.category;
        GroupedCovers(init, weights, c);
        SightedIffRecords(init, weights, c);
        assert FirstSighting(rows, weights, c) == |init|;
        NewGroupLast(g, e.value);
      } else {
        SameCategories(g, e);
      }
      OrderStep(c => FirstSighting(rows, weights, c), |init|, g, Grouped(rows, weights));
    }
  }

  /**
   * The ordering argument on its own: groups whose categories are seen in
   * order before row n stay in order, and a group added at the end is seen
   * at row n.
   */
  lemma OrderStep(seen: string -> nat, n: nat, g: seq<Group>, groups: seq<Group>)
    requires forall i :: 0 <= i < |g| ==> seen(g[i].category) < n
    requires forall i, j :: 0 <= i < j < |g| ==> seen(g[i].category) < seen(g[j].category)
    requires |groups| == |g| || (|groups| == |g| + 1 && seen(groups[|g|].category) == n)
    requires forall i :: 0 <= i < |g| ==> groups[i].category == g[i].category
    ensures forall i :: 0 <= i < |groups| ==> seen(groups[i].category) <= n
    ensures forall i, j :: 0 <= i < j < |groups| ==> seen(groups[i].category) < seen(groups[j].category)
  {
    forall i, j | 0 <= i < j < |groups|
      ensures seen(groups[i].category) < seen(groups[j].category)
    {
      assert groups[i].category == g[i].category;
      if j < |g| {
        assert groups[j].category == g[j].category;
      }
    }
  }

  /** A record of a new category adds its group after the others, which are unchanged. */
  lemma NewGroupLast(groups: seq<Group>, e: Extracted)
    requires IndexOf(groups, e.category) < 0
    ensures |AddToGroups(groups, e)| == |groups| + 1
    ensures AddToGroups(groups, e)[|groups|].category == e.category
    ensures forall i :: 0 <= i < |groups| ==> AddToGroups(groups, e)[i].category == groups[i].category
  {
  }

  /** A row with no record, or with a record of a known category, leaves the categories as they are. */
  lemma SameCategories(groups: seq<Group>, e: Option<Extracted>)
    requires e.Some? ==> IndexOf(groups, e.value.category) >= 0
    ensures var after := if e.Some? then AddToGroups(groups, e.value) else groups;
      |after| == |groups| && forall i :: 0 <= i < |groups| ==> after[i].category == groups[i].category
  {
  }

  /** Each group holds exactly the records of its category, in row order, and is never empty. */
  lemma {:induction false} GroupedRecords(rows: seq<TableRow>, weights: map<string, real>)
    ensures forall i :: 0 <= i < |Grouped(rows, weights)| ==>
      Grouped(rows, weights)[i].records == RecordsFor(rows, weights, Grouped(rows, weights)[i].category)
      && Grouped(rows, weights)[i].records != []
  {
    if rows != [] {
      var init := rows[..|rows| - 1];
      GroupedRecords(init, weights);
      var g := Grouped(init, weights);
      var e := ExtractGradeFromRow(rows[|rows| - 1], weights);
      if e.Some? {
        var c := e.value.category;
        var k := IndexOf(g, c);
        var g' := AddToGroups(g, e.value);
        GroupedDistinct(init, weights);
        GroupedCovers(init, weights, c);
        assert RecordsFor(rows, weights, c) == RecordsFor(init, weights, c) + [RecordOf(e.value)];
        forall i | 0 <= i < |g'| ensures g'[i].records == RecordsFor(rows, weights, g'[i].category) && g'[i].records != [] {
          if i < |g| && i != k {
            assert g'[i] == g[i] && g[i].category != c;
            assert RecordsFor(rows, weights, g[i].category) == RecordsFor(init, weights, g[i].category);
          }
        }
      }
    }
  }

  // ---------------------------------------------------------------------------
  // Per-category totals (the policy loop of extractGrades)
  // ---------------------------------------------------------------------------

  /** `grade_policies?.get(category)`: no policy map, or no entry, means no policy. */
  function PolicyFor(policies: Option<map<string, Policy>>, c: string): Option<Policy>
  {
    if policies.Some? && c in policies.value then Some(policies.value[c]) else None
  }

  /** A category's totals: the sums over what its policy leaves. */
  function TotalsOf(g: Group, policies: Option<map<string, Policy>>): CategoryTotals
  {
    var processed := PolicyResult(g.records, PolicyFor(policies, g.category));
    CategoryTotals(g.category, SumReceived(processed), SumPossible(processed))
  }

  /** The loop of `extractGrades` over the groups: apply the policy, then sum. */
  method TotalsByCategory(groups: seq<Group>, policies: Option<map<string, Policy>>) returns (totals: seq<CategoryTotals>)
    ensures |totals| == |groups|
    ensures forall i :: 0 <= i < |groups| ==> totals[i] == TotalsOf(groups[i], policies)
  {
    totals := [];
    for i := 0 to |groups|
      invariant |totals| == i
      invariant forall k :: 0 <= k < i ==> totals[k] == TotalsOf(groups[k], policies)
    {
      var category := groups[i].category;
      var policy := if policies.Some? && category in policies.value then Some(policies.value[category]) else None;
      var processed := ApplyGradePolicy(groups[i].records, policy);
      var received, possible := 0.0, 0.0;
      for j := 0 to |processed|
        invariant received == SumReceived(processed[..j])
        invariant possible == SumPossible(processed[..j])
      {
        assert processed[..j + 1][..j] == processed[..j];
        received := received + processed[j].pointsReceived;
        possible := possible + processed[j].maxPoints;
      }
      assert processed[..|processed|] == processed;
      totals := totals + [CategoryTotals(category, received, possible)];
    }
  }

  // ---------------------------------------------------------------------------
  // The assignment cache (extractAllAssignments, shouldInvalidateCache)
  // ---------------------------------------------------------------------------

  /**
   * The module state `assignment_cache` / `cached_weight_map_size`: the
   * grouped table is rebuilt only when there is no cache or the weight map
   * has a different number of entries.
   */
  class AssignmentCache {
    var cache: Option<seq<Group>>
    var cachedSize: nat

    constructor ()
      ensures cache == None && cachedSize == 0
    {
      cache := None;
      cachedSize := 0;
    }

    /** `shouldInvalidateCache`: only a change in the number of weights counts, not their values. */
    predicate ShouldInvalidate(weights: map<string, real>)
      reads this
    {
      cache.None? || |weights| != cachedSize
    }

    /**
     * `extractAllAssignments`: the cached groups when still valid; an empty
     * result (cache untouched) when there is no grade table; otherwise the
     * table regrouped, which becomes the cache together with the weight
     * map's size.
     */
    method ExtractAllAssignments(weights: map<string, real>, table: Option<seq<TableRow>>) returns (groups: seq<Group>)
      modifies this
      ensures !old(ShouldInvalidate(weights)) ==>
        groups == old(cache).value && cache == old(cache) && cachedSize == old(cachedSize)
      ensures old(ShouldInvalidate(weights)) && table.None? ==>
        groups == [] && cache == old(cache) && cachedSize == old(cachedSize)
      ensures old(ShouldInvalidate(weights)) && table.Some? ==>
        groups == Grouped(table.value, weights) && cache == Some(groups) && cachedSize == |weights|
    {
      if cache.Some? && !ShouldInvalidate(weights) {
        return cache.value;
      }
      if table.None? {
        return [];
      }
      groups := GroupAssignments(table.value, weights);
      cache := Some(groups);
      cachedSize := |weights|;
    }

    /** `extractGrades`: the (possibly cached) groups, each totalled after its policy. */
    method ExtractGrades(weights: map<string, real>, table: Option<seq<TableRow>>, policies: Option<map<string, Policy>>)
      returns (totals: seq<CategoryTotals>)
      modifies this
      ensures !old(ShouldInvalidate(weights)) ==> (cache == old(cache) && cachedSize == old(cachedSize)
        && |totals| == |cache.value| && forall i :: 0 <= i < |totals| ==> totals[i] == TotalsOf(cache.value[i], policies))
      ensures old(ShouldInvalidate(weights)) && table.None? ==> totals == [] && cache == old(cache) && cachedSize == old(cachedSize)
      ensures old(ShouldInvalidate(weights)) && table.Some? ==> (cache == Some(Grouped(table.value, weights)) && cachedSize == |weights|
        && |totals| == |cache.value| && forall i :: 0 <= i < |totals| ==> totals[i] == TotalsOf(cache.value[i], policies))
    {
      var groups := ExtractAllAssignments(weights, table);
      totals := TotalsByCategory(groups, policies);
    }
  }

  /**
   * The cache compares only the number of weights: after a category's
   * weight changes from 20 to 0 the cached grouping, which still holds that
   * category's row, is returned, although regrouping would drop the row.
   */
  method StaleCacheAfterWeightChange() returns (first: seq<Group>, second: seq<Group>)
    ensures first == [Group("Labs", [Assignment(8.0, 10.0)])]
    ensures second == first
    ensures Grouped([TableRow(Some(TextCell("10", Some(10.0))), Some("Labs"), Some(TextCell("8", Some(8.0))))], map["Labs" := 0.0]) == []
  {
    var row := TableRow(Some(TextCell("10", Some(10.0))), Some("Labs"), Some(TextCell("8", Some(8.0))));
    assert [row][..0] == [];
    var cache := new AssignmentCache();
    first := cache.ExtractAllAssignments(map["Labs" := 20.0], Some([row]));
    second := cache.ExtractAllAssignments(map["Labs" := 0.0], Some([row]));
  }

  // ---------------------------------------------------------------------------
  // The final grade (calculateFinalGrade) and the totals rows
  // ---------------------------------------------------------------------------

  /** `weight_map.get(category) || 0`. */
  function WeightOrZero(weights: map<string, real>, c: string): real
  {
    if c in weights then weights[c] else 0.0
  }

  function TotalReceivedOf(grades: seq<CategoryTotals>): real
  {
    if grades == [] then 0.0 else TotalReceivedOf(grades[..|grades| - 1]) + grades[|grades| - 1].received
  }

  function TotalPossibleOf(grades: seq<CategoryTotals>): real
  {
    if grades == [] then 0.0 else TotalPossibleOf(grades[..|grades| - 1]) + grades[|grades| - 1].possible
  }

  /** All points earned over all points possible, as a percentage; 0 when nothing is possible. */
  function UnweightedPercent(grades: seq<CategoryTotals>): real
  {
    if TotalPossibleOf(grades) > 0.0 then TotalReceivedOf(grades) / TotalPossibleOf(grades) * 100.0 else 0.0
  }

  /** Whether a category takes part in the weighted sum: something possible and a positive weight. */
  predicate Counts(t: CategoryTotals, weights: map<string, real>)
  {
    t.possible > 0.0 && WeightOrZero(weights, t.category) > 0.0
  }

  /** Σ fraction × weight over the categories that count; no division by the weight used. */
  function WeightedSum(grades: seq<CategoryTotals>, weights: map<string, real>): real
  {
    if grades == [] then 0.0
    else
      var t := grades[|grades| - 1];
      WeightedSum(grades[..|grades| - 1], weights)
        + (if Counts(t, weights) then t.received / t.possible * WeightOrZero(weights, t.category) else 0.0)
  }

  /** The weight of the categories that count. */
  function WeightUsed(grades: seq<CategoryTotals>, weights: map<string, real>): real
  {
    if grades == [] then 0.0
    else
      var t := grades[|grades| - 1];
      WeightUsed(grades[..|grades| - 1], weights) + (if Counts(t, weights) then WeightOrZero(weights, t.category) else 0.0)
  }

  /** The final grade of modules/core.js: unweighted without weights, else the plain weighted sum. */
  function FinalGrade(weights: map<string, real>, grades: seq<CategoryTotals>): real
  {
    if |weights| == 0 then UnweightedPercent(grades) else WeightedSum(grades, weights)
  }

  /** `calculateFinalGrade` (its number; the GPA suffix and the text are display). */
  method CalculateFinalGrade(weights: map<string, real>, grades: seq<CategoryTotals>) returns (finalGrade: real)
    ensures finalGrade == FinalGrade(weights, grades)
  {
    finalGrade := 0.0;
    if |weights| == 0 {
      var totalReceived, totalPossible := 0.0, 0.0;
      for i := 0 to |grades|
        invariant totalReceived == TotalReceivedOf(grades[..i])
        invariant totalPossible == TotalPossibleOf(grades[..i])
      {
        assert grades[..i + 1][..i] == grades[..i];
        totalReceived := totalReceived + grades[i].received;
        totalPossible := totalPossible + grades[i].possible;
      }
      assert grades[..|grades|] == grades;
      if totalPossible > 0.0 {
        finalGrade := totalReceived / totalPossible * 100.0;
      }
    } else {
      for i := 0 to |grades|
        invariant finalGrade == WeightedSum(grades[..i], weights)
      {
        assert grades[..i + 1][..i] == grades[..i];
        var category := grades[i].category;
        var weight := if category in weights then weights[category] else 0.0;
        if grades[i].possible > 0.0 && weight > 0.0 {
          finalGrade := finalGrade + grades[i].received / grades[i].possible * weight;
        }
      }
      assert grades[..|grades|] == grades;
    }
  }

  /** Each category earns between nothing and everything possible. */
  predicate WellFormed(grades: seq<CategoryTotals>)
  {
    forall i :: 0 <= i < |grades| ==> 0.0 <= grades[i].received <= grades[i].possible
  }

  lemma {:induction false} TotalsBounded(grades: seq<CategoryTotals>)
    requires WellFormed(grades)
    ensures 0.0 <= TotalReceivedOf(grades) <= TotalPossibleOf(grades)
  {
    if grades != [] {
      TotalsBounded(grades[..|grades| - 1]);
    }
  }

  /** A score of at most full marks in every category gives an unweighted grade between 0 and 100. */
  lemma UnweightedBounds(grades: seq<CategoryTotals>)
    requires WellFormed(grades)
    ensures 0.0 <= UnweightedPercent(grades) <= 100.0
  {
    TotalsBounded(grades);
    var r, p := TotalReceivedOf(grades), TotalPossibleOf(grades);
    if p > 0.0 {
      assert r / p <= 1.0;
    }
  }

  lemma WellFormedInit(grades: seq<CategoryTotals>)
    requires WellFormed(grades) && grades != []
    ensures WellFormed(grades[..|grades| - 1])
    ensures 0.0 <= grades[|grades| - 1].received <= grades[|grades| - 1].possible
  {
    var init := grades[..|grades| - 1];
    forall i | 0 <= i < |init| ensures 0.0 <= init[i].received <= init[i].possible {
      assert init[i] == grades[i];
    }
  }

  lemma FractionTimesWeight(r: real, p: real, w: real, x: real)
    requires 0.0 <= r <= p && p > 0.0 && w > 0.0 && x == r / p * w
    ensures 0.0 <= x <= w
  {
    var f := r / p;
    assert f * p == r;
    assert f <= 1.0;
    assert w - x == (1.0 - f) * w;
  }

  /**
   * No renormalisation: with every category at most at full marks, the
   * weighted result lies between 0 and the weight actually used (which is
   * below 100 whenever a weighted category has nothing graded yet).
   */
  lemma {:induction false} WeightedBounds(grades: seq<CategoryTotals>, weights: map<string, real>)
    requires WellFormed(grades)
    ensures 0.0 <= WeightedSum(grades, weights) <= WeightUsed(grades, weights)
  {
    if grades != [] {
      var init, t := grades[..|grades| - 1], grades[|grades| - 1];
      WellFormedInit(grades);
      WeightedBounds(init, weights);
      var ds := WeightedSum(grades, weights) - WeightedSum(init, weights);
      var du := WeightUsed(grades, weights) - WeightUsed(init, weights);
      assert 0.0 <= ds <= du by {
        var w := WeightOrZero(weights, t.category);
        if Counts(t, weights) {
          var x := t.received / t.possible * w;
          FractionTimesWeight(t.received, t.possible, w, x);
          assert ds == x;
          assert du == w;
        } else {
          assert ds == du == 0.0;
        }
      }
    }
  }

  /** When no category both has points possible and a positive weight, the weighted result is 0. */
  lemma {:induction false} NothingCountsGivesZero(grades: seq<CategoryTotals>, weights: map<string, real>)
    requires forall i :: 0 <= i < |grades| ==> !Counts(grades[i], weights)
    ensures WeightedSum(grades, weights) == 0.0 && WeightUsed(grades, weights) == 0.0
  {
    if grades != [] {
      NothingCountsGivesZero(grades[..|grades| - 1], weights);
    }
  }

  /** `updateCategoryTotals`: a category's percentage, 0 when nothing is possible. */
  function CategoryPercentage(t: CategoryTotals): (r: real)
    ensures t.possible <= 0.0 ==> r == 0.0
    ensures 0.0 <= t.received <= t.possible ==> 0.0 <= r <= 100.0
    ensures t.possible > 0.0 ==> r * t.possible == t.received * 100.0
  {
    if t.possible > 0.0 then t.received / t.possible * 100.0 else 0.0
  }

  /**
   * The arithmetic of `updateFinalGradeRow`: the points of every category,
   * whatever its weight, and their percentage; the points text is written
   * only when something is possible. The row therefore shows the unweighted
   * grade even when the headline total is weighted.
   */
  method FinalRowTotals(grades: seq<CategoryTotals>) returns (totalReceived: real, totalPossible: real, percentage: real, showPoints: bool)
    ensures totalReceived == TotalReceivedOf(grades) && totalPossible == TotalPossibleOf(grades)
    ensures percentage == FinalGrade(map[], grades)
    ensures showPoints <==> totalPossible > 0.0
  {
    totalReceived, totalPossible := 0.0, 0.0;
    for i := 0 to |grades|
      invariant totalReceived == TotalReceivedOf(grades[..i])
      invariant totalPossible == TotalPossibleOf(grades[..i])
    {
      assert grades[..i + 1][..i] == grades[..i];
      totalReceived := totalReceived + grades[i].received;
      totalPossible := totalPossible + grades[i].possible;
    }
    assert grades[..|grades|] == grades;
    percentage := if totalPossible > 0.0 then totalReceived / totalPossible * 100.0 else 0.0;
    showPoints := totalPossible > 0.0;
  }
}
