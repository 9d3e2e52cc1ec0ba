/**
 * Grade policies (modules/policies.js): drop the N lowest-scoring assignments
 * of a category, then award full credit when the points earned reach a
 * threshold; and the reading of the policy table into a category -> policy map.
 */
module Policies {
  import opened Wrappers
  import opened Records
  import opened KeySort

  /** Whether the drop-lowest step runs: N > 0 and more than N records. */
  predicate DropApplies(grades: seq<Assignment>, n: int)
  {
    n > 0 && |grades| > n
  }

  /** The records the drop-lowest step keeps: the sorted copy without its first N. */
  function AfterDrop(grades: seq<Assignment>, n: int): seq<Assignment>
  {
    if DropApplies(grades, n) then SortBy(grades, Fraction)[n..] else grades
  }

  /** The records the drop-lowest step discards. */
  function DroppedBy(grades: seq<Assignment>, n: int): seq<Assignment>
  {
    if DropApplies(grades, n) then SortBy(grades, Fraction)[..n] else []
  }

  /** Whether the full-credit step collapses the (already reduced) records. */
  predicate FullCreditApplies(kept: seq<Assignment>, p: Policy)
  {
    p.fullCreditThreshold > 0.0 && SumReceived(kept) >= p.fullCreditThreshold
  }

  /** What `applyGradePolicy` returns for a category's records. */
  function PolicyResult(grades: seq<Assignment>, policy: Option<Policy>): seq<Assignment>
  {
    match policy
    case None => grades
    case Some(p) =>
      var kept := AfterDrop(grades, p.dropLowest);
      if FullCreditApplies(kept, p) then [Assignment(SumPossible(kept), SumPossible(kept))] else kept
  }

  /**
   * `applyGradePolicy`: without a policy the records themselves come back;
   * otherwise a copy is sorted in place by fraction, sliced, and possibly
   * collapsed into one full-credit record. Sequences are values, so the
   * caller's records cannot be changed by the sort.
   */
  method ApplyGradePolicy(grades: seq<Assignment>, policy: Option<Policy>) returns (result: seq<Assignment>)
    ensures result == PolicyResult(grades, policy)
    ensures policy.None? ==> result == grades
  {
    if policy.None? {
      return grades;
    }
    var p := policy.value;
    var processed := new Assignment[|grades|](k requires 0 <= k < |grades| => grades[k]);
    assert processed[..] == grades;
    var kept := processed[..];
    if p.dropLowest > 0 && processed.Length > p.dropLowest {
      InsertionSort(processed, Fraction);
      kept := processed[p.dropLowest..];
    }
    assert kept == AfterDrop(grades, p.dropLowest);
    if p.fullCreditThreshold > 0.0 {
      var totalReceived := TotalReceived(kept);
      if totalReceived >= p.fullCreditThreshold {
        var totalPossible := TotalPossible(kept);
        return [Assignment(totalPossible, totalPossible)];
      }
    }
    return kept;
  }

  /**
   * The drop count: exactly N records go when the step applies, none
   * otherwise, so a non-empty category never ends up empty.
   */
  lemma DropCount(grades: seq<Assignment>, n: int)
    ensures DropApplies(grades, n) ==> |AfterDrop(grades, n)| == |grades| - n && |DroppedBy(grades, n)| == n
    ensures !DropApplies(grades, n) ==> AfterDrop(grades, n) == grades && DroppedBy(grades, n) == []
    ensures |grades| > 0 ==> |AfterDrop(grades, n)| > 0
  {
    SortByIsStableSort(grades, Fraction);
  }

  /**
   * What the drop-lowest step keeps and discards: together they are the
   * input; nothing kept scores below anything dropped; the kept records are
   * in ascending order; and among records of equal score the earlier ones
   * in the input are the ones dropped.
   */
  lemma DropKeepsHighest(grades: seq<Assignment>, n: int)
    requires DropApplies(grades, n)
    ensures multiset(DroppedBy(grades, n)) + multiset(AfterDrop(grades, n)) == multiset(grades)
    ensures forall i, j :: 0 <= i < |DroppedBy(grades, n)| && 0 <= j < |AfterDrop(grades, n)| ==>
      Fraction(DroppedBy(grades, n)[i]) <= Fraction(AfterDrop(grades, n)[j])
    ensures SortedBy(AfterDrop(grades, n), Fraction)
    ensures forall v :: Ties(DroppedBy(grades, n), Fraction, v) + Ties(AfterDrop(grades, n), Fraction, v) == Ties(grades, Fraction, v)
  {
    var sorted := SortBy(grades, Fraction);
    SortByIsStableSort(grades, Fraction);
    SplitSorted(sorted, Fraction, n);
  }

  /** The kept records' totals are the full totals less the dropped records' points. */
  lemma DropTotals(grades: seq<Assignment>, n: int)
    ensures SumReceived(AfterDrop(grades, n)) == SumReceived(grades) - SumReceived(DroppedBy(grades, n))
    ensures SumPossible(AfterDrop(grades, n)) == SumPossible(grades) - SumPossible(DroppedBy(grades, n))
  {
    if DropApplies(grades, n) {
      var sorted := SortBy(grades, Fraction);
      SortByIsStableSort(grades, Fraction);
      assert sorted == sorted[..n] + sorted[n..];
      SumsAppend(sorted[..n], sorted[n..]);
      SumsOfPermutation(sorted, grades);
    }
  }

  /**
   * Full credit: when the kept records earn at least the (positive)
   * threshold, the category becomes a single record at 100% of the kept
   * records' possible points; otherwise the kept records are the result.
   */
  lemma FullCreditTotals(grades: seq<Assignment>, p: Policy)
    ensures var kept := AfterDrop(grades, p.dropLowest);
      var result := PolicyResult(grades, Some(p));
      && (FullCreditApplies(kept, p) ==> |result| == 1 && SumReceived(result) == SumPossible(result) == SumPossible(kept))
      && (!FullCreditApplies(kept, p) ==> result == kept)
  {
    var kept := AfterDrop(grades, p.dropLowest);
    assert [Assignment(SumPossible(kept), SumPossible(kept))][..0] == [];
  }

  /** A policy with neither part active leaves the records as they are. */
  lemma InactivePolicyIsIdentity(grades: seq<Assignment>, p: Policy)
    requires p.dropLowest <= 0 && p.fullCreditThreshold <= 0.0
    ensures PolicyResult(grades, Some(p)) == grades
  {
  }

  /** An empty category stays empty: 0 points never reach a positive threshold. */
  lemma EmptyCategoryNeverCollapses(p: Policy)
    ensures PolicyResult([], Some(p)) == []
  {
  }

  /** Three records scoring 0.5, 0.9 and 0.3 with one dropped: the 0.3 goes. */
  lemma DropLowestExample()
    ensures PolicyResult([Assignment(5.0, 10.0), Assignment(9.0, 10.0), Assignment(3.0, 10.0)], Some(Policy(1, 0.0)))
      == [Assignment(5.0, 10.0), Assignment(9.0, 10.0)]
  {
    var a, b, c := Assignment(5.0, 10.0), Assignment(9.0, 10.0), Assignment(3.0, 10.0);
    var g := [a, b, c];
    assert g[..2][..1] == [a] && [a][..0] == [];
    assert SortBy([a], Fraction) == [a];
    assert g[..2] == [a, b];
    assert SortBy([a, b], Fraction) == [a, b];
    assert [a, b][..1] == [a];
    assert InsertAfterTies([a], c, Fraction) == [c, a];
    assert InsertAfterTies([a, b], c, Fraction) == [c, a, b];
    assert SortBy(g, Fraction) == [c, a, b];
  }

  /** 120 of 150 points against a threshold of 100 collapses to one 150/150 record. */
  lemma FullCreditExample()
    ensures PolicyResult([Assignment(80.0, 100.0), Assignment(40.0, 50.0)], Some(Policy(0, 100.0)))
      == [Assignment(150.0, 150.0)]
  {
    var g := [Assignment(80.0, 100.0), Assignment(40.0, 50.0)];
    assert g[..1] == [Assignment(80.0, 100.0)] && g[..1][..0] == [];
    assert SumReceived(g) == 120.0;
    assert SumPossible(g) == 150.0;
  }

  /**
   * Dropping runs first: 90 points in all would reach a threshold of 80, but
   * after the lowest-scoring record (50/200) goes only 40 remain, so nothing
   * collapses.
   */
  lemma DropBeforeFullCreditExample()
    ensures PolicyResult([Assignment(40.0, 100.0), Assignment(50.0, 200.0)], Some(Policy(1, 80.0)))
      == [Assignment(40.0, 100.0)]
  {
    var a, b := Assignment(40.0, 100.0), Assignment(50.0, 200.0);
    var g := [a, b];
    assert g[..1] == [a] && [a][..0] == [];
    assert SortBy([a], Fraction) == [a];
    assert InsertAfterTies([a], b, Fraction) == [b, a];
    assert SortBy(g, Fraction) == [b, a];
    assert [b, a][1..] == [a];
    assert SumReceived([a]) == 40.0;
  }

  // ---------------------------------------------------------------------------
  // Reading the policy table (getGradePolicies)
  // ---------------------------------------------------------------------------

  /** A text input's value with what `parseInt` makes of it (None when NaN). */
  datatype IntCell = IntCell(text: string, number: Option<int>)

  /** One row of the policy table: its label and its two inputs, each possibly missing. */
  datatype PolicyRow = PolicyRow(category: Option<string>, dropInput: Option<IntCell>, thresholdInput: Option<TextCell>)

  /**
   * The policy a row describes. A missing or empty input reads as "0"; a
   * NaN parse is stored as 0, which it equals in every comparison the
   * scripts make with it (`> 0`).
   */
  function RowPolicy(row: PolicyRow): Policy
  {
    var drop := match row.dropInput case None => 0 case Some(c) => if c.text == "" then 0 else c.number.GetOr(0);
    var threshold := match row.thresholdInput case None => 0.0 case Some(c) => if c.text == "" then 0.0 else c.number.GetOr(0.0);
    Policy(drop, threshold)
  }

  predicate IsActive(p: Policy)
  {
    p.dropLowest > 0 || p.fullCreditThreshold > 0.0
  }

  /** Whether a row is stored: it has a non-empty label and an active policy. */
  predicate Stored(row: PolicyRow)
  {
    row.category.Some? && row.category.value != "" && IsActive(RowPolicy(row))
  }

  /** The map the row loop builds; a later row for the same category overwrites. */
  function PoliciesFrom(rows: seq<PolicyRow>): map<string, Policy>
  {
    if rows == [] then map[]
    else
      var m := PoliciesFrom(rows[..|rows| - 1]);
      var row := rows[|rows| - 1];
      if Stored(row) then m[row.category.value := RowPolicy(row)] else m
  }

  /** `getGradePolicies`: no table gives an empty map. */
  method GetGradePolicies(body: Option<seq<PolicyRow>>) returns (policies: map<string, Policy>)
    ensures body.None? ==> policies == map[]
    ensures body.Some? ==> policies == PoliciesFrom(body.value)
  {
    policies := map[];
    if body.None? {
      return;
    }
    var rows := body.value;
    var i := 0;
    while i < |rows|
      invariant 0 <= i <= |rows|
      invariant policies == PoliciesFrom(rows[..i])
    {
      assert rows[..i + 1][..i] == rows[..i];
      var row := rows[i];
      if row.category.Some? && row.category.value != "" {
        var policy := RowPolicy(row);
        if policy.dropLowest > 0 || policy.fullCreditThreshold > 0.0 {
          policies := policies[row.category.value := policy];
        }
      }
      i := i + 1;
    }
    assert rows[..|rows|] == rows;
  }

  /**
   * Every stored policy is active, and a category is stored exactly when
   * some row with that label carries an active policy; the value is that of
   * the last such row.
   */
  lemma StoredPoliciesAreActive(rows: seq<PolicyRow>, c: string)
    ensures c in PoliciesFrom(rows) ==> IsActive(PoliciesFrom(rows)[c]) && c != ""
    ensures c in PoliciesFrom(rows) <==> exists i :: 0 <= i < |rows| && Stored(rows[i]) && rows[i].category.value == c
    ensures c in PoliciesFrom(rows) ==>
      exists i :: (0 <= i < |rows| && Stored(rows[i]) && rows[i].category.value == c
        && PoliciesFrom(rows)[c] == RowPolicy(rows[i])
        && forall j :: i < j < |rows| ==> !(Stored(rows[j]) && rows[j].category.value == c))
  {
    StoredPoliciesKeys(rows, c);
    if c in PoliciesFrom(rows) {
      var i := LastStoredRow(rows, c);
    }
  }

  /** The keys of the map: the non-empty labels of rows with an active policy, each stored active. */
  lemma {:induction false} StoredPoliciesKeys(rows: seq<PolicyRow>, c: string)
    ensures c in PoliciesFrom(rows) ==> IsActive(PoliciesFrom(rows)[c]) && c != ""
    ensures c in PoliciesFrom(rows) <==> exists i :: 0 <= i < |rows| && Stored(rows[i]) && rows[i].category.value == c
  {
    if rows != [] {
      var init := rows[..|rows| - 1];
      StoredPoliciesKeys(init, c);
      var n := |rows| - 1;
      if !(Stored(rows[n]) && rows[n].category.value == c) {
        if exists i :: 0 <= i < |rows| && Stored(rows[i]) && rows[i].category.value == c {
          var i :| 0 <= i < |rows| && Stored(rows[i]) && rows[i].category.value == c;
          assert init[i] == rows[i];
        }
        if exists i :: 0 <= i < |init| && Stored(init[i]) && init[i].category.value == c {
          var i :| 0 <= i < |init| && Stored(init[i]) && init[i].category.value == c;
          assert rows[i] == init[i];
        }
      }
    }
  }

  /** The index of the last row that stores a policy for the label, with the policy it stores. */
  lemma {:induction false} LastStoredRow(rows: seq<PolicyRow>, c: string) returns (i: nat)
    requires c in PoliciesFrom(rows)
    ensures i < |rows| && Stored(rows[i]) && rows[i].category.value == c
    ensures PoliciesFrom(rows)[c] == RowPolicy(rows[i])
    ensures forall j :: i < j < |rows| ==> !(Stored(rows[j]) && rows[j].category.value == c)
    decreases |rows|
  {
    assert rows != [];
    var init, n := rows[..|rows| - 1], |rows| - 1;
    if Stored(rows[n]) && rows[n].category.value == c {
      i := n;
    } else {
      assert c in PoliciesFrom(init) && PoliciesFrom(rows)[c] == PoliciesFrom(init)[c];
      i := LastStoredRow(init, c);
      assert rows[i] == init[i];
      forall j | i < j < |rows| ensures !(Stored(rows[j]) && rows[j].category.value == c) {
        if j < n {
          assert rows[j] == init[j];
        }
      }
    }
  }
}
