/**
 * The custom-weights table of modules/weights.js (and its copy in
 * CanvasEnableTotals.user.js): reading the weight map out of the table,
 * the running total shown under it with its 100% check, and the value a
 * row starts with.
 */
module Weights {
  import opened Wrappers
  import opened Records
  import opened Decimal

  /** A row of the custom-weights table: its trimmed label and its number input. */
  datatype WeightRow = WeightRow(category: Option<string>, input: Option<TextCell>)

  /** `category && input`: a non-empty label and an input. */
  predicate Kept(row: WeightRow)
  {
    row.category.Some? && row.category.value != "" && row.input.Some?
  }

  function RowWeight(row: WeightRow): real
    requires row.input.Some?
  {
    ParseFloatOrZero(row.input.value.number)
  }

  /** The map the rows give, a later row overwriting an earlier one with the same label. */
  function CustomWeightsFrom(rows: seq<WeightRow>): map<string, real>
  {
    if rows == [] then map[]
    else
      var m := CustomWeightsFrom(rows[..|rows| - 1]);
      var row := rows[|rows| - 1];
      if Kept(row) then m[row.category.value := RowWeight(row)] else m
  }

  /** `getCustomWeights` (without saving): no table body gives an empty map. */
  method GetCustomWeights(body: Option<seq<WeightRow>>) returns (weights: map<string, real>)
    ensures body.None? ==> weights == map[]
    ensures body.Some? ==> weights == CustomWeightsFrom(body.value)
  {
    weights := map[];
    if body.None? {
      return;
    }
    var rows := body.value;
    for i := 0 to |rows|
      invariant weights == CustomWeightsFrom(rows[..i])
    {
      assert rows[..i + 1][..i] == rows[..i];
      var row := rows[i];
      if row.category.Some? && row.category.value != "" && row.input.Some? {
        weights := weights[row.category.value := ParseFloatOrZero(row.input.value.number)];
      }
    }
    assert rows[..|rows|] == rows;
  }

  /**
   * A label is in the map exactly when some row has that non-empty label
   * and an input; the empty label never is.
   */
  lemma {:induction false} CustomWeightsKeys(rows: seq<WeightRow>, c: string)
    ensures c in CustomWeightsFrom(rows) <==> exists i :: 0 <= i < |rows| && Kept(rows[i]) && rows[i].category.value == c
    ensures c in CustomWeightsFrom(rows) ==> c != ""
  {
    if rows != [] {
      var init := rows[..|rows| - 1];
      CustomWeightsKeys(init, c);
      var n := |rows| - 1;
      if !(Kept(rows[n]) && rows[n].category.value == c) {
        if exists i :: 0 <= i < |rows| && Kept(rows[i]) && rows[i].category.value == c {
          var i :| 0 <= i < |rows| && Kept(rows[i]) && rows[i].category.value == c;
          assert init[i] == rows[i];
        }
        if exists i :: 0 <= i < |init| && Kept(init[i]) && init[i].category.value == c {
          var i :| 0 <= i < |init| && Kept(init[i]) && init[i].category.value == c;
          assert rows[i] == init[i];
        }
      }
    }
  }

  /** A label's weight is the parsed input of the last row with that label, 0 when it does not parse. */
  lemma {:induction false} CustomWeightsLastRow(rows: seq<WeightRow>, c: string)
    requires c in CustomWeightsFrom(rows)
    ensures exists i :: (0 <= i < |rows| && Kept(rows[i]) && rows[i].category.value == c
      && CustomWeightsFrom(rows)[c] == RowWeight(rows[i])
      && forall j :: i < j < |rows| ==> !(Kept(rows[j]) && rows[j].category.value == c))
  {
    var i := LastKeptRow(rows, c);
  }

  /** The index of the last row that sets the label, with what CustomWeightsLastRow states about it. */
  lemma {:induction false} LastKeptRow(rows: seq<WeightRow>, c: string) returns (i: nat)
    requires c in CustomWeightsFrom(rows)
    ensures i < |rows| && Kept(rows[i]) && rows[i].category.value == c
    ensures CustomWeightsFrom(rows)[c] == RowWeight(rows[i])
    ensures forall j :: i < j < |rows| ==> !(Kept(rows[j]) && rows[j].category.value == c)
    decreases |rows|
  {
    assert rows != [];
    var init, n := rows[..|rows| - 1], |rows| - 1;
    if Kept(rows[n]) && rows[n].category.value == c {
      i := n;
    } else {
      assert c in CustomWeightsFrom(init) && CustomWeightsFrom(rows)[c] == CustomWeightsFrom(init)[c];
      i := LastKeptRow(init, c);
      assert rows[i] == init[i];
      forall j | i < j < |rows| ensures !(Kept(rows[j]) && rows[j].category.value == c) {
        if j < n {
          assert rows[j] == init[j];
        }
      }
    }
  }

  // ---------------------------------------------------------------------------
  // The weight total (updateWeightTotal)
  // ---------------------------------------------------------------------------

  /** Σ `parseFloatOrZero` over every number input of the table, in row order. */
  function InputTotal(rows: seq<WeightRow>): real
  {
    if rows == [] then 0.0
    else
      var row := rows[|rows| - 1];
      InputTotal(rows[..|rows| - 1]) + (if row.input.Some? then RowWeight(row) else 0.0)
  }

  /** `Math.abs(total - 100) < 0.01`: the total is shown in the normal colour, otherwise red. */
  predicate TotalIsValid(total: real)
  {
    -0.01 < total - 100.0 < 0.01
  }

  /** What the total cell shows: its text and whether it is valid. */
  datatype TotalDisplay = TotalDisplay(text: string, valid: bool)

  /**
   * `updateWeightTotal`: nothing when the table body or the total cell is
   * missing; otherwise the inputs' total as `toFixed(2)` followed by '%',
   * flagged valid exactly when it is within 0.01 of 100. Read back through
   * the weight pattern, the text gives the total to within half a hundredth.
   */
  method UpdateWeightTotal(body: Option<seq<WeightRow>>, hasTotalCell: bool) returns (display: Option<TotalDisplay>)
    ensures body.None? || !hasTotalCell ==> display == None
    ensures body.Some? && hasTotalCell ==> (display.Some?
      && display.value.text == FormatFixed2(InputTotal(body.value)) + "%"
      && (display.value.valid <==> TotalIsValid(InputTotal(body.value))))
    ensures display.Some? && InputTotal(body.value) >= 0.0 ==>
      FindPercent(display.value.text).Some? && -0.005 < FindPercent(display.value.text).value - InputTotal(body.value) <= 0.005
  {
    if body.None? || !hasTotalCell {
      return None;
    }
    var rows := body.value;
    var total := 0.0;
    for i := 0 to |rows|
      invariant total == InputTotal(rows[..i])
    {
      assert rows[..i + 1][..i] == rows[..i];
      if rows[i].input.Some? {
        total := total + ParseFloatOrZero(rows[i].input.value.number);
      }
    }
    assert rows[..|rows|] == rows;
    if total >= 0.0 {
      FixedPercentRoundTrip(total);
    }
    var diff := total - 100.0;
    var magnitude := if diff < 0.0 then -diff else diff;
    display := Some(TotalDisplay(FormatFixed2(total) + "%", magnitude < 0.01));
  }

  /** The labels of the rows, in order. */
  function Labels(rows: seq<WeightRow>): seq<string>
    requires forall i :: 0 <= i < |rows| ==> Kept(rows[i])
  {
    if rows == [] then []
    else
      var last := rows[|rows| - 1];
      assert Kept(last);
      Labels(rows[..|rows| - 1]) + [last.category.value]
  }

  /** Σ of the map's values at the given labels. */
  function SumAt(m: map<string, real>, labels: seq<string>): real
    requires forall i :: 0 <= i < |labels| ==> labels[i] in m
  {
    if labels == [] then 0.0 else SumAt(m, labels[..|labels| - 1]) + m[labels[|labels| - 1]]
  }

  lemma {:induction false} SumAtUnaffected(m: map<string, real>, labels: seq<string>, c: string, v: real)
    requires forall i :: 0 <= i < |labels| ==> labels[i] in m && labels[i] != c
    ensures SumAt(m[c := v], labels) == SumAt(m, labels)
  {
    if labels != [] {
      SumAtUnaffected(m, labels[..|labels| - 1], c, v);
    }
  }

  lemma {:induction false} LabelsAreKeys(rows: seq<WeightRow>)
    requires forall i :: 0 <= i < |rows| ==> Kept(rows[i])
    ensures |Labels(rows)| == |rows|
    ensures forall i :: 0 <= i < |rows| ==> Labels(rows)[i] == rows[i].category.value && Labels(rows)[i] in CustomWeightsFrom(rows)
  {
    if rows != [] {
      LabelsAreKeys(rows[..|rows| - 1]);
    }
  }

  /**
   * When every row has its own non-empty label and an input, the total
   * shown is the sum of the weights the map holds: the 100% check is a
   * check on the weights that will be used.
   */
  lemma {:induction false} TotalIsSumOfWeights(rows: seq<WeightRow>)
    requires forall i :: 0 <= i < |rows| ==> Kept(rows[i])
    requires forall i, j :: 0 <= i < j < |rows| ==> rows[i].category != rows[j].category
    ensures forall i :: 0 <= i < |Labels(rows)| ==> Labels(rows)[i] in CustomWeightsFrom(rows)
    ensures InputTotal(rows) == SumAt(CustomWeightsFrom(rows), Labels(rows))
  {
    LabelsAreKeys(rows);
    if rows != [] {
      var init := rows[..|rows| - 1];
      var last := rows[|rows| - 1];
      TotalIsSumOfWeights(init);
      LabelsAreKeys(init);
      forall i | 0 <= i < |Labels(init)|
        ensures Labels(init)[i] in CustomWeightsFrom(init) && Labels(init)[i] != last.category.value
      {
        assert rows[i] == init[i];
      }
      SumAtUnaffected(CustomWeightsFrom(init), Labels(init), last.category.value, RowWeight(last));
      assert Labels(rows)[..|Labels(rows)| - 1] == Labels(init);
    }
  }

  /** Weights of 40, 35 and 25 total 100 and pass the check; 40 and an unparsable input total 40 and fail it. */
  lemma WeightTotalExample()
    ensures TotalIsValid(InputTotal([WeightRow(Some("A"), Some(TextCell("40", Some(40.0)))),
      WeightRow(Some("B"), Some(TextCell("35", Some(35.0)))), WeightRow(Some("C"), Some(TextCell("25", Some(25.0))))]))
    ensures !TotalIsValid(InputTotal([WeightRow(Some("A"), Some(TextCell("40", Some(40.0)))),
      WeightRow(Some("B"), Some(TextCell("abc", None)))]))
  {
    var a := WeightRow(Some("A"), Some(TextCell("40", Some(40.0))));
    var b := WeightRow(Some("B"), Some(TextCell("35", Some(35.0))));
    var c := WeightRow(Some("C"), Some(TextCell("25", Some(25.0))));
    var d := WeightRow(Some("B"), Some(TextCell("abc", None)));
    assert [a, b, c][..2] == [a, b] && [a, b][..1] == [a] && [a][..0] == [];
    assert InputTotal([a]) == 40.0;
    assert InputTotal([a, b]) == 75.0;
    assert InputTotal([a, b, c]) == 100.0;
    assert [a, d][..1] == [a];
    assert InputTotal([a, d]) == 40.0;
  }

  // ---------------------------------------------------------------------------
  // A row's starting value (populateWeightsTable)
  // ---------------------------------------------------------------------------

  /** `savedWeights?.get(category) || 0`: the saved weight, or 0 when none is saved. */
  function InitialWeight(saved: Option<map<string, real>>, c: string): (r: real)
    ensures saved.None? || c !in saved.value ==> r == 0.0
    ensures saved.Some? && c in saved.value ==> r == saved.value[c]
  {
    if saved.Some? && c in saved.value && saved.value[c] != 0.0 then saved.value[c] else 0.0
  }
}
