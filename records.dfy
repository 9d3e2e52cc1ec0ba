/**
 * The records the grade engine works on (the values the scripts read out of
 * the grade table and the settings panels), and the sums over them.
 */
module Records {
  import opened Wrappers

  /** One graded assignment: `{ points_received, max_points }`. */
  datatype Assignment = Assignment(pointsReceived: real, maxPoints: real)

  /** Per-category totals: `{ received, possible }` under the category's name. */
  datatype CategoryTotals = CategoryTotals(category: string, received: real, possible: real)

  /** The assignments of one category, in table order. */
  datatype Group = Group(category: string, records: seq<Assignment>)

  /** A per-category exclusion policy: drop the N lowest, full credit at a threshold. */
  datatype Policy = Policy(dropLowest: int, fullCreditThreshold: real)

  /**
   * The text of a table cell or an input's value, with what `parseFloat`
   * makes of it (None when that is NaN).
   */
  datatype TextCell = TextCell(text: string, number: Option<real>)

  /**
   * One row of the grade table: the max-points cell (its text with the
   * leading "/" removed), the category label and the score cell. None means
   * the element is missing from the row.
   */
  datatype TableRow = TableRow(maxPoints: Option<TextCell>, category: Option<string>, score: Option<TextCell>)

  /** What a grade-table row yields once it passes the row filter. */
  datatype Extracted = Extracted(category: string, pointsReceived: real, maxPoints: real)

  /** `parseFloatOrZero`: the parsed number, or 0 when the parse is not finite. */
  function ParseFloatOrZero(parsed: Option<real>): (r: real)
    ensures parsed.None? ==> r == 0.0
    ensures parsed.Some? ==> r == parsed.value
  {
    parsed.GetOr(0.0)
  }

  /** The score of one assignment as a fraction; 0 when max points is not positive. */
  function Fraction(a: Assignment): real
  {
    if a.maxPoints > 0.0 then a.pointsReceived / a.maxPoints else 0.0
  }

  /** Sum of `points_received`, accumulated left to right. */
  function SumReceived(s: seq<Assignment>): real
  {
    if s == [] then 0.0 else SumReceived(s[..|s| - 1]) + s[|s| - 1].pointsReceived
  }

  /** Sum of `max_points`, accumulated left to right. */
  function SumPossible(s: seq<Assignment>): real
  {
    if s == [] then 0.0 else SumPossible(s[..|s| - 1]) + s[|s| - 1].maxPoints
  }

  /** Summing a sequence by a loop: what `reduce((sum, g) => sum + g.points_received, 0)` does. */
  method TotalReceived(s: seq<Assignment>) returns (total: real)
    ensures total == SumReceived(s)
  {
    total := 0.0;
    var i := 0;
    while i < |s|
      invariant 0 <= i <= |s|
      invariant total == SumReceived(s[..i])
    {
      assert s[..i + 1][..i] == s[..i];
      total := total + s[i].pointsReceived;
      i := i + 1;
    }
    assert s[..|s|] == s;
  }

  /** `reduce((sum, g) => sum + g.max_points, 0)` as a loop. */
  method TotalPossible(s: seq<Assignment>) returns (total: real)
    ensures total == SumPossible(s)
  {
    total := 0.0;
    var i := 0;
    while i < |s|
      invariant 0 <= i <= |s|
      invariant total == SumPossible(s[..i])
    {
      assert s[..i + 1][..i] == s[..i];
      total := total + s[i].maxPoints;
      i := i + 1;
    }
    assert s[..|s|] == s;
  }

  lemma {:induction false} SumsAppend(a: seq<Assignment>, b: seq<Assignment>)
    ensures SumReceived(a + b) == SumReceived(a) + SumReceived(b)
    ensures SumPossible(a + b) == SumPossible(a) + SumPossible(b)
    decreases |b|
  {
    if b == [] {
      assert a + b == a;
    } else {
      var b' := b[..|b| - 1];
      assert (a + b)[..|a + b| - 1] == a + b';
      SumsAppend(a, b');
    }
  }

  /** Sums do not depend on the order of the records. */
  lemma {:induction false} SumsOfPermutation(a: seq<Assignment>, b: seq<Assignment>)
    requires multiset(a) == multiset(b)
    ensures SumReceived(a) == SumReceived(b)
    ensures SumPossible(a) == SumPossible(b)
    decreases |a|
  {
    if a != [] {
      var last := a[|a| - 1];
      assert last in multiset(b);
      var k :| 0 <= k < |b| && b[k] == last;
      assert b == b[..k] + [last] + b[k + 1..];
      var rest := b[..k] + b[k + 1..];
      assert a == a[..|a| - 1] + [last];
      assert multiset(a) == multiset(a[..|a| - 1]) + multiset{last};
      assert multiset(b) == multiset(b[..k]) + multiset{last} + multiset(b[k + 1..]);
      assert multiset(rest) == multiset(b[..k]) + multiset(b[k + 1..]);
      assert multiset(a[..|a| - 1]) == multiset(a) - multiset{last};
      assert multiset(rest) == multiset(b) - multiset{last};
      SumsOfPermutation(a[..|a| - 1], rest);
      SumsAppend(b[..k], [last]);
      SumsAppend(b[..k] + [last], b[k + 1..]);
      SumsAppend(b[..k], b[k + 1..]);
    }
  }
}
