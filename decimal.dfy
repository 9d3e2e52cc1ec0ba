/**
 * Decimal text: `Number.prototype.toFixed(2)` on a real, and the weight
 * pattern `(\d+(?:\.\d+)?)%` that reads a percentage back out of a cell,
 * taken as JavaScript's `String.prototype.match` takes it (leftmost match,
 * greedy with backtracking) followed by `parseFloat` of the captured number.
 */
module Decimal {
  import opened Wrappers

  predicate IsDigit(c: char)
  {
    '0' <= c <= '9'
  }

  predicate AllDigits(s: string)
  {
    forall i :: 0 <= i < |s| ==> IsDigit(s[i])
  }

  function DigitValue(c: char): nat
    requires IsDigit(c)
  {
    (c as int - '0' as int) as nat
  }

  function DigitChar(d: nat): (c: char)
    requires d < 10
    ensures IsDigit(c) && DigitValue(c) == d
  {
    ('0' as int + d) as char
  }

  function Pow10(k: nat): (p: nat)
    ensures p >= 1
  {
    if k == 0 then 1 else 10 * Pow10(k - 1)
  }

  /** The number a run of decimal digits spells. */
  function DigitsValue(s: string): nat
    requires AllDigits(s)
  {
    if s == [] then 0 else DigitsValue(s[..|s| - 1]) * 10 + DigitValue(s[|s| - 1])
  }

  /** The decimal digits of `n`, without leading zeros. */
  function NatToDigits(n: nat): (s: string)
    ensures AllDigits(s) && |s| >= 1
  {
    if n < 10 then [DigitChar(n)] else NatToDigits(n / 10) + [DigitChar(n % 10)]
  }

  function Zeros(k: nat): (s: string)
    ensures |s| == k && AllDigits(s)
  {
    if k == 0 then [] else Zeros(k - 1) + ['0']
  }

  /** x in hundredths, rounded half up. */
  function RoundedHundredths(x: real): (n: nat)
    requires x >= 0.0
    ensures n as real <= x * 100.0 + 0.5 < n as real + 1.0
  {
    (x * 100.0 + 0.5).Floor
  }

  /** The digits of n, padded with leading zeros to at least three. */
  function PaddedDigits(n: nat): (s: string)
    ensures |s| >= 3 && AllDigits(s)
  {
    var digits := NatToDigits(n);
    if |digits| < 3 then Zeros(3 - |digits|) + digits else digits
  }

  /** `x.toFixed(2)` for a non-negative x, without the point: round half up to hundredths, at least one integer digit. */
  function FixedDigits(x: real): (s: string)
    requires x >= 0.0
    ensures |s| >= 3 && AllDigits(s)
  {
    PaddedDigits(RoundedHundredths(x))
  }

  /** `x.toFixed(2)`: a sign for negatives, the integer digits, a point, two decimals. */
  function FormatFixed2(x: real): (s: string)
    ensures |s| >= 4 && s[|s| - 3] == '.'
    ensures x >= 0.0 ==> AllDigits(s[..|s| - 3]) && AllDigits(s[|s| - 2..])
    ensures x < 0.0 ==> s[0] == '-'
  {
    var a := if x < 0.0 then -x else x;
    var d := FixedDigits(a);
    (if x < 0.0 then "-" else "") + d[..|d| - 2] + "." + d[|d| - 2..]
  }

  lemma {:induction false} NatToDigitsValue(n: nat)
    ensures DigitsValue(NatToDigits(n)) == n
  {
    if n >= 10 {
      NatToDigitsValue(n / 10);
      var s := NatToDigits(n);
      assert s[..|s| - 1] == NatToDigits(n / 10);
    }
  }

  lemma {:induction false} DigitsValueAppend(a: string, b: string)
    requires AllDigits(a) && AllDigits(b)
    ensures AllDigits(a + b)
    ensures DigitsValue(a + b) == DigitsValue(a) * Pow10(|b|) + DigitsValue(b)
  {
    if b == [] {
      assert a + b == a;
    } else {
      var b' := b[..|b| - 1];
      DigitsValueAppend(a, b');
      assert (a + b)[..|a + b| - 1] == a + b';
      var x, p, y, l := DigitsValue(a), Pow10(|b'|), DigitsValue(b'), DigitValue(b[|b| - 1]);
      assert DigitsValue(a + b) == (x * p + y) * 10 + l;
      assert DigitsValue(b) == y * 10 + l;
      assert Pow10(|b|) == 10 * p;
      ShiftDigit(x, p, y);
    }
  }

  lemma ShiftDigit(x: int, p: int, y: int)
    ensures (x * p + y) * 10 == x * (10 * p) + y * 10
  {
    calc {
      (x * p + y) * 10;
      x * p * 10 + y * 10;
      x * (p * 10) + y * 10;
    }
  }

  lemma {:induction false} ZerosValue(k: nat)
    ensures DigitsValue(Zeros(k)) == 0
  {
    if k > 0 {
      ZerosValue(k - 1);
      assert Zeros(k)[..k - 1] == Zeros(k - 1);
    }
  }

  /** Leading zeros do not change the number. */
  lemma PaddedDigitsValue(n: nat)
    ensures DigitsValue(PaddedDigits(n)) == n
  {
    var digits := NatToDigits(n);
    NatToDigitsValue(n);
    if |digits| < 3 {
      LeadingZeros(3 - |digits|, digits);
    }
  }

  lemma LeadingZeros(k: nat, digits: string)
    requires AllDigits(digits)
    ensures AllDigits(Zeros(k) + digits) && DigitsValue(Zeros(k) + digits) == DigitsValue(digits)
  {
    DigitsValueAppend(Zeros(k), digits);
    ZerosValue(k);
    assert DigitsValue(Zeros(k)) * Pow10(|digits|) == 0;
  }

  // ---------------------------------------------------------------------------
  // The weight pattern
  // ---------------------------------------------------------------------------

  /** How many digits follow position i. */
  function DigitRun(s: string, i: nat): (k: nat)
    requires i <= |s|
    ensures i + k <= |s| && AllDigits(s[i..i + k])
    ensures i + k == |s| || !IsDigit(s[i + k])
    decreases |s| - i
  {
    if i == |s| || !IsDigit(s[i]) then 0
    else
      var k := DigitRun(s, i + 1);
      assert s[i..i + 1 + k] == [s[i]] + s[i + 1..i + 1 + k];
      1 + k
  }

  /** A digit run is as long as its digits reach. */
  lemma {:induction false} DigitRunIs(s: string, i: nat, k: nat)
    requires i + k <= |s| && AllDigits(s[i..i + k])
    requires i + k == |s| || !IsDigit(s[i + k])
    ensures DigitRun(s, i) == k
    decreases k
  {
    if k > 0 {
      assert s[i + 1..i + k] == s[i..i + k][1..];
      DigitRunIs(s, i + 1, k - 1);
    }
  }

  /**
   * The number the pattern captures when a match starts at i: a digit run,
   * then either a point, a non-empty digit run and '%', or '%' at once. A
   * shorter integer or fraction run is followed by a digit, so backtracking
   * never finds another match from the same start.
   */
  function MatchAt(s: string, i: nat): (r: Option<real>)
    requires i <= |s|
    ensures r.Some? ==> r.value >= 0.0 && i < |s| && IsDigit(s[i])
  {
    var d := DigitRun(s, i);
    if d == 0 then None
    else
      var whole := DigitsValue(s[i..i + d]) as real;
      var j := i + d;
      if j + 1 < |s| && s[j] == '.' && DigitRun(s, j + 1) > 0
         && j + 1 + DigitRun(s, j + 1) < |s| && s[j + 1 + DigitRun(s, j + 1)] == '%' then
        var e := DigitRun(s, j + 1);
        Some(whole + DigitsValue(s[j + 1..j + 1 + e]) as real / Pow10(e) as real)
      else if j < |s| && s[j] == '%' then Some(whole)
      else None
  }

  /** The leftmost match at or after position i. */
  function FindFrom(s: string, i: nat): (r: Option<real>)
    requires i <= |s|
    ensures r.Some? ==> r.value >= 0.0
    decreases |s| - i
  {
    if i == |s| then None
    else if MatchAt(s, i).Some? then MatchAt(s, i)
    else FindFrom(s, i + 1)
  }

  /** `parseFloat(text.match(/(\d+(?:\.\d+)?)%/)[1])`, or None when there is no match. */
  function FindPercent(s: string): (r: Option<real>)
    ensures r.Some? ==> r.value >= 0.0
  {
    FindFrom(s, 0)
  }

  /** Every match ends in a '%'. */
  lemma {:induction false} FindFromNeedsPercent(s: string, i: nat)
    requires i <= |s| && FindFrom(s, i).Some?
    ensures exists k :: i <= k < |s| && s[k] == '%'
    decreases |s| - i
  {
    if MatchAt(s, i).Some? {
      var d := DigitRun(s, i);
      var j := i + d;
      if j + 1 < |s| && s[j] == '.' && DigitRun(s, j + 1) > 0
         && j + 1 + DigitRun(s, j + 1) < |s| && s[j + 1 + DigitRun(s, j + 1)] == '%' {
        assert s[j + 1 + DigitRun(s, j + 1)] == '%';
      } else {
        assert s[j] == '%';
      }
    } else {
      FindFromNeedsPercent(s, i + 1);
    }
  }

  /** Text without a '%' yields no weight. */
  lemma NoPercentNoMatch(s: string)
    requires forall k :: 0 <= k < |s| ==> s[k] != '%'
    ensures FindPercent(s) == None
  {
    if FindPercent(s).Some? {
      FindFromNeedsPercent(s, 0);
    }
  }

  /** A whole number written out and followed by '%' reads back as itself. */
  lemma WholePercentRoundTrip(n: nat)
    ensures FindPercent(NatToDigits(n) + "%") == Some(n as real)
  {
    var d := NatToDigits(n);
    var s := d + "%";
    assert s[0..|d|] == d;
    DigitRunIs(s, 0, |d|);
    NatToDigitsValue(n);
  }

  /** Integer digits, a point, two decimals and '%' match as that decimal number. */
  lemma MatchFixedAt(s: string, j: nat)
    requires 1 <= j && |s| == j + 4 && s[j] == '.' && s[j + 3] == '%'
    requires AllDigits(s[..j]) && AllDigits(s[j + 1..j + 3])
    ensures FindPercent(s) == Some(DigitsValue(s[..j]) as real + DigitsValue(s[j + 1..j + 3]) as real / 100.0)
  {
    assert s[0..j] == s[..j];
    DigitRunIs(s, 0, j);
    DigitRunIs(s, j + 1, 2);
    assert Pow10(2) == 100;
    assert MatchAt(s, 0).Some?;
  }

  /** The integer digits and the two decimals of `toFixed(2)` are worth x in hundredths, rounded. */
  lemma FixedParts(x: real)
    requires x >= 0.0
    ensures var f := FormatFixed2(x);
      DigitsValue(f[..|f| - 3]) * 100 + DigitsValue(f[|f| - 2..]) == RoundedHundredths(x)
  {
    var digits := FixedDigits(x);
    FormatFixed2Parts(x);
    LastTwoDigits(digits);
    PaddedDigitsValue(RoundedHundredths(x));
  }

  lemma FormatFixed2Parts(x: real)
    requires x >= 0.0
    ensures var f, d := FormatFixed2(x), FixedDigits(x);
      f[..|f| - 3] == d[..|d| - 2] && f[|f| - 2..] == d[|d| - 2..]
  {
    var d := FixedDigits(x);
    SplitAtPoint(FormatFixed2(x), d[..|d| - 2], d[|d| - 2..]);
  }

  /** The parts on either side of the point. */
  lemma SplitAtPoint(f: string, whole: string, frac: string)
    requires f == whole + "." + frac
    ensures |f| == |whole| + 1 + |frac|
    ensures f[..|whole|] == whole && f[|whole| + 1..] == frac
  {
    assert f == whole + ("." + frac);
  }

  /** The last two digits are the hundredths. */
  lemma LastTwoDigits(d: string)
    requires AllDigits(d) && |d| >= 2
    ensures AllDigits(d[..|d| - 2]) && AllDigits(d[|d| - 2..])
    ensures DigitsValue(d[..|d| - 2]) * 100 + DigitsValue(d[|d| - 2..]) == DigitsValue(d)
  {
    var whole, frac := d[..|d| - 2], d[|d| - 2..];
    assert d == whole + frac;
    assert Pow10(|frac|) == 100 by {
      assert |frac| == 2;
    }
    DigitsValueAppend(whole, frac);
  }

  lemma Hundredths(a: nat, b: nat, n: nat)
    requires a * 100 + b == n
    ensures a as real + b as real / 100.0 == n as real / 100.0
  {
    assert (a * 100 + b) as real == a as real * 100.0 + b as real;
  }

  /** Rounding half up to hundredths moves x by at most half a hundredth. */
  lemma RoundedIsClose(x: real)
    requires x >= 0.0
    ensures -0.005 < RoundedHundredths(x) as real / 100.0 - x <= 0.005
  {
    var n := RoundedHundredths(x) as real;
    assert n <= x * 100.0 + 0.5 < n + 1.0;
  }

  /** A fixed-point text followed by '%' keeps its digits around the point, with the '%' right after. */
  lemma AppendPercent(f: string, s: string)
    requires |f| >= 4 && f[|f| - 3] == '.' && s == f + "%"
    ensures |s| == |f| + 1 && s[|f| - 3] == '.' && s[|f|] == '%'
    ensures s[..|f| - 3] == f[..|f| - 3] && s[|f| - 2..|f|] == f[|f| - 2..]
  {
  }

  /**
   * `toFixed(2)` followed by '%' (the weight total's text) reads back, by
   * the weight pattern, as x rounded half up to hundredths: within half a
   * hundredth of x.
   */
  lemma FixedPercentRoundTrip(x: real)
    requires x >= 0.0
    ensures FindPercent(FormatFixed2(x) + "%") == Some(RoundedHundredths(x) as real / 100.0)
    ensures -0.005 < RoundedHundredths(x) as real / 100.0 - x <= 0.005
  {
    var f := FormatFixed2(x);
    var s := f + "%";
    var j := |f| - 3;
    AppendPercent(f, s);
    MatchFixedAt(s, j);
    FixedParts(x);
    Hundredths(DigitsValue(f[..j]), DigitsValue(f[|f| - 2..]), RoundedHundredths(x));
    RoundedIsClose(x);
  }
}
