/**
 * GPA resolution (modules/gpa.js): look a percentage up in a user-defined
 * scale of (min, max, gpa) ranges, and read that scale out of its table.
 */
module Gpa {
  import opened Wrappers
  import opened Records
  import opened KeySort

  datatype GpaRange = GpaRange(minPercent: real, maxPercent: real, gpaValue: real)

  /**
   * The sort key of `calculateGPA`: its comparator `b.min_percent -
   * a.min_percent` sorts by descending min, that is ascending by -min.
   */
  function DescendingMin(r: GpaRange): real
  {
    -r.minPercent
  }

  /** A range contains a percentage inclusively at both ends. */
  predicate Contains(r: GpaRange, p: real)
  {
    r.minPercent <= p <= r.maxPercent
  }

  /** The first range of `s` that contains `p`. */
  function FirstContaining(s: seq<GpaRange>, p: real): Option<GpaRange>
  {
    if s == [] then None
    else if Contains(s[0], p) then Some(s[0])
    else FirstContaining(s[1..], p)
  }

  /** What `calculateGPA` returns: null without a scale, 0.0 when no range matches. */
  function GpaOf(p: real, scale: Option<seq<GpaRange>>): Option<real>
  {
    if scale.None? || scale.value == [] then None
    else match FirstContaining(SortBy(scale.value, DescendingMin), p)
      case Some(r) => Some(r.gpaValue)
      case None => Some(0.0)
  }

  /**
   * `calculateGPA`: sort a copy of the scale by descending min (a sequence
   * is a value: the caller's scale keeps its order), then return the first
   * range that contains the percentage.
   */
  method CalculateGPA(percentage: real, scale: Option<seq<GpaRange>>) returns (gpa: Option<real>)
    ensures gpa == GpaOf(percentage, scale)
  {
    if scale.None? || |scale.value| == 0 {
      return None;
    }
    var s := scale.value;
    var sorted := new GpaRange[|s|](k requires 0 <= k < |s| => s[k]);
    assert sorted[..] == s;
    InsertionSort(sorted, DescendingMin);
    var i := 0;
    while i < sorted.Length
      invariant 0 <= i <= sorted.Length
      invariant FirstContaining(sorted[..], percentage) == FirstContaining(sorted[i..], percentage)
    {
      var range := sorted[i];
      if percentage >= range.minPercent && percentage <= range.maxPercent {
        return Some(range.gpaValue);
      }
      assert sorted[i..][1..] == sorted[i + 1..];
      i := i + 1;
    }
    return Some(0.0);
  }

  lemma {:induction false} FirstContainingIsFirst(s: seq<GpaRange>, p: real)
    ensures FirstContaining(s, p).None? <==> forall k :: 0 <= k < |s| ==> !Contains(s[k], p)
    ensures FirstContaining(s, p).Some? ==>
      exists q :: 0 <= q < |s| && s[q] == FirstContaining(s, p).value && Contains(s[q], p)
        && forall k :: 0 <= k < q ==> !Contains(s[k], p)
  {
    if s != [] && !Contains(s[0], p) {
      FirstContainingIsFirst(s[1..], p);
      if FirstContaining(s, p).Some? {
        var q :| 0 <= q < |s[1..]| && s[1..][q] == FirstContaining(s, p).value && Contains(s[1..][q], p)
          && forall k :: 0 <= k < q ==> !Contains(s[1..][k], p);
        assert s[q + 1] == s[1..][q];
        forall k | 0 <= k < q + 1 ensures !Contains(s[k], p) {
          if k > 0 {
            assert s[k] == s[1..][k - 1];
          }
        }
      }
      forall k | 0 < k < |s| ensures s[k] == s[1..][k - 1] { }
    }
  }

  /**
   * The first containing range is also the first containing range among
   * the ranges that share its key.
   */
  lemma {:induction false} FirstContainingAmongTies(s: seq<GpaRange>, p: real, key: GpaRange -> real)
    requires FirstContaining(s, p).Some?
    ensures FirstContaining(Ties(s, key, key(FirstContaining(s, p).value)), p) == FirstContaining(s, p)
  {
    var w := FirstContaining(s, p).value;
    if !Contains(s[0], p) {
      FirstContainingAmongTies(s[1..], p, key);
      var t := if key(s[0]) == key(w) then [s[0]] else [];
      var rest := Ties(s[1..], key, key(w));
      assert Ties(s, key, key(w)) == t + rest;
      if t != [] {
        assert (t + rest)[0] == s[0];
        assert (t + rest)[1..] == rest;
      } else {
        assert t + rest == rest;
      }
    }
  }

  /** No range of the scale contains the percentage: the lookup falls back to 0.0. */
  lemma GpaFallback(p: real, scale: seq<GpaRange>)
    requires scale != []
    requires forall i :: 0 <= i < |scale| ==> !Contains(scale[i], p)
    ensures GpaOf(p, Some(scale)) == Some(0.0)
  {
    var sorted := SortBy(scale, DescendingMin);
    SortByIsStableSort(scale, DescendingMin);
    forall k | 0 <= k < |sorted| ensures !Contains(sorted[k], p) {
      assert sorted[k] in multiset(scale);
    }
    FirstContainingIsFirst(sorted, p);
  }

  /** In a scale sorted by descending min, the first containing range has the greatest min among containing ranges. */
  lemma {:induction false} FirstInSortedHasGreatestMin(sorted: seq<GpaRange>, p: real, y: GpaRange)
    requires SortedBy(sorted, DescendingMin)
    requires y in sorted && Contains(y, p)
    ensures FirstContaining(sorted, p).Some?
    ensures y.minPercent <= FirstContaining(sorted, p).value.minPercent
  {
    FirstContainingIsFirst(sorted, p);
    var k :| 0 <= k < |sorted| && sorted[k] == y;
    var q :| 0 <= q < |sorted| && sorted[q] == FirstContaining(sorted, p).value && Contains(sorted[q], p)
      && forall k' :: 0 <= k' < q ==> !Contains(sorted[k'], p);
    assert q <= k;
    assert DescendingMin(sorted[q]) <= DescendingMin(sorted[k]);
  }

  /** The range the sorted scan stops at is a containing range of the scale with the greatest min. */
  lemma SortedScanFindsGreatestMin(p: real, scale: seq<GpaRange>, i: nat)
    requires i < |scale| && Contains(scale[i], p)
    ensures FirstContaining(SortBy(scale, DescendingMin), p).Some?
    ensures var w := FirstContaining(SortBy(scale, DescendingMin), p).value;
      w in scale && Contains(w, p)
      && forall j :: 0 <= j < |scale| && Contains(scale[j], p) ==> scale[j].minPercent <= w.minPercent
  {
    var sorted := SortBy(scale, DescendingMin);
    SortByIsStableSort(scale, DescendingMin);
    assert scale[i] in multiset(sorted);
    FirstInSortedHasGreatestMin(sorted, p, scale[i]);
    var w := FirstContaining(sorted, p).value;
    FirstContainingIsFirst(sorted, p);
    assert w in multiset(sorted);
    assert w in multiset(scale);
    forall j | 0 <= j < |scale| && Contains(scale[j], p) ensures scale[j].minPercent <= w.minPercent {
      assert scale[j] in multiset(sorted);
      FirstInSortedHasGreatestMin(sorted, p, scale[j]);
    }
  }

  /**
   * Some range contains the percentage: the lookup returns the value of a
   * containing range of the scale whose min is the greatest among the
   * containing ranges, and which comes first in the scale among the
   * containing ranges with that min.
   */
  lemma GpaWinner(p: real, scale: seq<GpaRange>, i: nat)
    requires i < |scale| && Contains(scale[i], p)
    ensures exists w :: (w in scale && Contains(w, p) && GpaOf(p, Some(scale)) == Some(w.gpaValue)
      && (forall j :: 0 <= j < |scale| && Contains(scale[j], p) ==> scale[j].minPercent <= w.minPercent)
      && FirstContaining(Ties(scale, DescendingMin, -w.minPercent), p) == Some(w))
  {
    var w := Winner(p, scale, i);
  }

  /** The range the lookup stops at, with the facts GpaWinner states about it. */
  lemma Winner(p: real, scale: seq<GpaRange>, i: nat) returns (w: GpaRange)
    requires i < |scale| && Contains(scale[i], p)
    ensures w in scale && Contains(w, p) && GpaOf(p, Some(scale)) == Some(w.gpaValue)
    ensures forall j :: 0 <= j < |scale| && Contains(scale[j], p) ==> scale[j].minPercent <= w.minPercent
    ensures FirstContaining(Ties(scale, DescendingMin, -w.minPercent), p) == Some(w)
  {
    var sorted := SortBy(scale, DescendingMin);
    SortedScanFindsGreatestMin(p, scale, i);
    w := FirstContaining(sorted, p).value;
    assert GpaOf(p, Some(scale)) == Some(w.gpaValue);
    FirstContainingAmongTies(sorted, p, DescendingMin);
    SortByKeepsTies(scale, DescendingMin, -w.minPercent);
  }

  /** The scale 90-100 -> 4.0, 80-89.99 -> 3.0: 85 gives 3.0, 70 gives 0.0, no scale gives null. */
  lemma GpaExample()
    ensures GpaOf(85.0, Some([GpaRange(90.0, 100.0, 4.0), GpaRange(80.0, 89.99, 3.0)])) == Some(3.0)
    ensures GpaOf(70.0, Some([GpaRange(90.0, 100.0, 4.0), GpaRange(80.0, 89.99, 3.0)])) == Some(0.0)
    ensures GpaOf(85.0, Some([])) == None && GpaOf(85.0, None) == None
  {
    var a, b := GpaRange(90.0, 100.0, 4.0), GpaRange(80.0, 89.99, 3.0);
    assert [a, b][..1] == [a] && [a][..0] == [];
    assert SortBy([a], DescendingMin) == [a];
    assert SortBy([a, b], DescendingMin) == [a, b];
    assert [a, b][1..] == [b];
  }

  // ---------------------------------------------------------------------------
  // Reading the scale table (getGPAScale)
  // ---------------------------------------------------------------------------

  /** One row of the scale table: its min, max and GPA inputs, each possibly missing. */
  datatype GpaRow = GpaRow(minInput: Option<TextCell>, maxInput: Option<TextCell>, gpaInput: Option<TextCell>)

  predicate Complete(row: GpaRow)
  {
    row.minInput.Some? && row.maxInput.Some? && row.gpaInput.Some?
  }

  /** The range a complete row describes; an unparsable input reads as 0. */
  function RowRange(row: GpaRow): GpaRange
    requires Complete(row)
  {
    GpaRange(ParseFloatOrZero(row.minInput.value.number),
             ParseFloatOrZero(row.maxInput.value.number),
             ParseFloatOrZero(row.gpaInput.value.number))
  }

  /** Whether a row goes into the scale: it is complete and its max is at least its min. */
  predicate Kept(row: GpaRow)
  {
    Complete(row) && RowRange(row).maxPercent >= RowRange(row).minPercent
  }

  /** The ranges the row loop pushes, in table order. */
  function ScaleFrom(rows: seq<GpaRow>): seq<GpaRange>
  {
    if rows == [] then []
    else
      var row := rows[|rows| - 1];
      ScaleFrom(rows[..|rows| - 1]) + (if Kept(row) then [RowRange(row)] else [])
  }

  /** `getGPAScale`: no table gives an empty scale. */
  method GetGPAScale(body: Option<seq<GpaRow>>) returns (scale: seq<GpaRange>)
    ensures body.None? ==> scale == []
    ensures body.Some? ==> scale == ScaleFrom(body.value)
  {
    scale := [];
    if body.None? {
      return;
    }
    var rows := body.value;
    var i := 0;
    while i < |rows|
      invariant 0 <= i <= |rows|
      invariant scale == ScaleFrom(rows[..i])
    {
      assert rows[..i + 1][..i] == rows[..i];
      var row := rows[i];
      if row.minInput.Some? && row.maxInput.Some? && row.gpaInput.Some? {
        var minPercent := ParseFloatOrZero(row.minInput.value.number);
        var maxPercent := ParseFloatOrZero(row.maxInput.value.number);
        var gpaValue := ParseFloatOrZero(row.gpaInput.value.number);
        if maxPercent >= minPercent {
          scale := scale + [GpaRange(minPercent, maxPercent, gpaValue)];
        }
      }
      i := i + 1;
    }
    assert rows[..|rows|] == rows;
  }

  /**
   * The scale read from the table holds exactly the ranges of the complete
   * rows whose max is at least their min, so every range in it is well formed.
   */
  lemma {:induction false} ScaleFromKeepsValidRows(rows: seq<GpaRow>)
    ensures |ScaleFrom(rows)| <= |rows|
    ensures forall r :: r in ScaleFrom(rows) ==> r.maxPercent >= r.minPercent
    ensures forall r :: r in ScaleFrom(rows) <==> exists i :: 0 <= i < |rows| && Kept(rows[i]) && RowRange(rows[i]) == r
  {
    if rows != [] {
      var init := rows[..|rows| - 1];
      ScaleFromKeepsValidRows(init);
      forall r ensures r in ScaleFrom(rows) <==> exists i :: 0 <= i < |rows| && Kept(rows[i]) && RowRange(rows[i]) == r {
        if r in ScaleFrom(init) {
          var i :| 0 <= i < |init| && Kept(init[i]) && RowRange(init[i]) == r;
          assert rows[i] == init[i];
        }
        if exists i :: 0 <= i < |rows| && Kept(rows[i]) && RowRange(rows[i]) == r {
          var i :| 0 <= i < |rows| && Kept(rows[i]) && RowRange(rows[i]) == r;
          if i < |init| {
            assert init[i] == rows[i];
          }
        }
      }
    }
  }
}
