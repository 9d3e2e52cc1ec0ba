/**
 * A stable ascending sort by a real-valued key. Both scripts sort with
 * `Array.prototype.sort` and a comparator that subtracts two keys; that sort
 * is stable, so its result is the one sequence that is ordered by the key
 * and keeps every group of equal keys in input order (StableSortIsUnique).
 * The method sorts an array in place by insertion.
 */
module KeySort {

  /** The elements whose key is `v`, in input order. */
  function Ties<T>(s: seq<T>, key: T -> real, v: real): seq<T>
  {
    if s == [] then [] else (if key(s[0]) == v then [s[0]] else []) + Ties(s[1..], key, v)
  }

  ghost predicate SortedBy<T>(s: seq<T>, key: T -> real)
  {
    forall i, j :: 0 <= i < j < |s| ==> key(s[i]) <= key(s[j])
  }

  /** Insert `x` after every trailing element whose key exceeds its own: one step of insertion sort. */
  function InsertAfterTies<T>(s: seq<T>, x: T, key: T -> real): (r: seq<T>)
    ensures |r| == |s| + 1
    decreases |s|
  {
    if s == [] || key(s[|s| - 1]) <= key(x) then s + [x]
    else InsertAfterTies(s[..|s| - 1], x, key) + [s[|s| - 1]]
  }

  /** The stable sort of `s`: insert the elements one by one, left to right. */
  function SortBy<T>(s: seq<T>, key: T -> real): (r: seq<T>)
    ensures |r| == |s|
  {
    if s == [] then [] else InsertAfterTies(SortBy(s[..|s| - 1], key), s[|s| - 1], key)
  }

  lemma {:induction false} TiesAppend<T>(a: seq<T>, b: seq<T>, key: T -> real, v: real)
    ensures Ties(a + b, key, v) == Ties(a, key, v) + Ties(b, key, v)
  {
    if a == [] {
      assert a + b == b;
    } else {
      var h := if key(a[0]) == v then [a[0]] else [];
      assert (a + b)[0] == a[0] && (a + b)[1..] == a[1..] + b;
      assert Ties(a + b, key, v) == h + Ties(a[1..] + b, key, v);
      TiesAppend(a[1..], b, key, v);
      assert Ties(a, key, v) == h + Ties(a[1..], key, v);
    }
  }

  lemma {:induction false} InsertAfterTiesContents<T>(s: seq<T>, x: T, key: T -> real)
    ensures |InsertAfterTies(s, x, key)| == |s| + 1
    ensures multiset(InsertAfterTies(s, x, key)) == multiset(s) + multiset{x}
    decreases |s|
  {
    if !(s == [] || key(s[|s| - 1]) <= key(x)) {
      var init := s[..|s| - 1];
      InsertAfterTiesContents(init, x, key);
      assert s == init + [s[|s| - 1]];
    }
  }

  lemma {:induction false} InsertAfterTiesSorted<T>(s: seq<T>, x: T, key: T -> real)
    requires SortedBy(s, key)
    ensures SortedBy(InsertAfterTies(s, x, key), key)
    decreases |s|
  {
    if !(s == [] || key(s[|s| - 1]) <= key(x)) {
      var init, last := s[..|s| - 1], s[|s| - 1];
      InsertAfterTiesSorted(init, x, key);
      InsertAfterTiesContents(init, x, key);
      var r := InsertAfterTies(init, x, key);
      forall i | 0 <= i < |r| ensures key(r[i]) <= key(last) {
        assert r[i] in multiset(r);
        if r[i] != x {
          assert r[i] in multiset(init);
          var k :| 0 <= k < |init| && init[k] == r[i];
          assert s[k] == init[k];
        }
      }
    }
  }

  lemma {:induction false} InsertAfterTiesStable<T>(s: seq<T>, x: T, key: T -> real, v: real)
    ensures Ties(InsertAfterTies(s, x, key), key, v) == Ties(s, key, v) + Ties([x], key, v)
    decreases |s|
  {
    if s == [] || key(s[|s| - 1]) <= key(x) {
      TiesAppend(s, [x], key, v);
    } else {
      var init, last := s[..|s| - 1], s[|s| - 1];
      InsertAfterTiesStable(init, x, key, v);
      TiesAppend(InsertAfterTies(init, x, key), [last], key, v);
      assert s == init + [last];
      TiesAppend(init, [last], key, v);
    }
  }

  /** SortBy gives an ordered permutation of its input that keeps ties in input order. */
  lemma {:induction false} SortByIsStableSort<T>(s: seq<T>, key: T -> real)
    ensures |SortBy(s, key)| == |s|
    ensures multiset(SortBy(s, key)) == multiset(s)
    ensures SortedBy(SortBy(s, key), key)
    ensures forall v :: Ties(SortBy(s, key), key, v) == Ties(s, key, v)
  {
    if s != [] {
      var init, last := s[..|s| - 1], s[|s| - 1];
      SortByIsStableSort(init, key);
      InsertAfterTiesContents(SortBy(init, key), last, key);
      InsertAfterTiesSorted(SortBy(init, key), last, key);
      assert s == init + [last];
      forall v ensures Ties(SortBy(s, key), key, v) == Ties(s, key, v) {
        InsertAfterTiesStable(SortBy(init, key), last, key, v);
        TiesAppend(init, [last], key, v);
      }
    }
  }

  /** The ties of one key, read off SortByIsStableSort. */
  /** Cutting a sorted sequence: the front is no greater than the back, the back stays sorted, and the two share out the ties. */
  lemma SplitSorted<T>(s: seq<T>, key: T -> real, n: nat)
    requires SortedBy(s, key) && n <= |s|
    ensures multiset(s[..n]) + multiset(s[n..]) == multiset(s)
    ensures forall i, j :: 0 <= i < n && 0 <= j < |s| - n ==> key(s[..n][i]) <= key(s[n..][j])
    ensures SortedBy(s[n..], key)
    ensures forall v :: Ties(s[..n], key, v) + Ties(s[n..], key, v) == Ties(s, key, v)
  {
    assert s == s[..n] + s[n..];
    forall i, j | 0 <= i < n && 0 <= j < |s| - n
      ensures key(s[..n][i]) <= key(s[n..][j])
    {
      assert s[..n][i] == s[i] && s[n..][j] == s[n + j];
    }
    forall v ensures Ties(s[..n], key, v) + Ties(s[n..], key, v) == Ties(s, key, v) {
      TiesAppend(s[..n], s[n..], key, v);
    }
  }

  lemma SortByKeepsTies<T>(s: seq<T>, key: T -> real, v: real)
    ensures Ties(SortBy(s, key), key, v) == Ties(s, key, v)
  {
    SortByIsStableSort(s, key);
  }

  lemma {:induction false} TiesOfSortedHead<T>(r: seq<T>, key: T -> real)
    requires r != [] && SortedBy(r, key)
    ensures Ties(r, key, key(r[0])) == [r[0]] + Ties(r[1..], key, key(r[0]))
  {
  }

  lemma {:induction false} TiesMember<T>(s: seq<T>, key: T -> real, v: real, y: T)
    requires y in Ties(s, key, v)
    ensures y in s && key(y) == v
  {
    if s != [] {
      if y in Ties(s[1..], key, v) {
        TiesMember(s[1..], key, v, y);
      }
    }
  }

  lemma {:induction false} TiesOfMember<T>(s: seq<T>, key: T -> real, y: T)
    requires y in s
    ensures Ties(s, key, key(y)) != []
  {
    if s[0] != y {
      TiesOfMember(s[1..], key, y);
    }
  }

  /**
   * Any sequence ordered by the key whose groups of equal keys match those of
   * `s` is `SortBy(s)`: every stable sort returns this same sequence.
   */
  lemma {:induction false} StableSortIsUnique<T>(s: seq<T>, r: seq<T>, key: T -> real)
    requires SortedBy(r, key)
    requires forall v :: Ties(r, key, v) == Ties(s, key, v)
    ensures r == SortBy(s, key)
  {
    SortByIsStableSort(s, key);
    SortedWithSameTiesAreEqual(r, SortBy(s, key), key);
  }

  lemma {:induction false} SortedWithSameTiesAreEqual<T>(r: seq<T>, q: seq<T>, key: T -> real)
    requires SortedBy(r, key) && SortedBy(q, key)
    requires forall v :: Ties(r, key, v) == Ties(q, key, v)
    ensures r == q
    decreases |r|
  {
    if r != [] {
      TiesOfMember(r, key, r[0]);
      assert Ties(q, key, key(r[0])) != [];
      assert q != [];
      TiesOfMember(q, key, q[0]);
      var kr, kq := key(r[0]), key(q[0]);
      assert Ties(r, key, kq) != [];
      var yr := Ties(r, key, kq)[0];
      TiesMember(r, key, kq, yr);
      var yq := Ties(q, key, kr)[0];
      TiesMember(q, key, kr, yq);
      assert kr <= kq && kq <= kr;
      TiesOfSortedHead(r, key);
      TiesOfSortedHead(q, key);
      assert r[0] == q[0];
      forall v ensures Ties(r[1..], key, v) == Ties(q[1..], key, v) {
        var p := if key(r[0]) == v then [r[0]] else [];
        assert Ties(r, key, v) == p + Ties(r[1..], key, v);
        assert Ties(q, key, v) == p + Ties(q[1..], key, v);
        assert Ties(r[1..], key, v) == Ties(r, key, v)[|p|..];
        assert Ties(q[1..], key, v) == Ties(q, key, v)[|p|..];
      }
      SortedWithSameTiesAreEqual(r[1..], q[1..], key);
    }
  }

  /** Moving the gap one place left past an element whose key exceeds that of `x`. */
  lemma InsertAfterTiesShift<T>(s: seq<T>, j: nat, x: T, key: T -> real)
    requires 0 < j <= |s| && key(s[j - 1]) > key(x)
    ensures InsertAfterTies(s[..j], x, key) + s[j..] == InsertAfterTies(s[..j - 1], x, key) + s[j - 1..]
  {
    assert s[..j][..j - 1] == s[..j - 1];
    assert s[j - 1..] == [s[j - 1]] + s[j..];
  }

  /** With every key from `j` on above that of `x`, inserting `x` moves that suffix. */
  lemma {:induction false} InsertAfterTiesSuffix<T>(s: seq<T>, j: nat, m: nat, x: T, key: T -> real)
    requires j <= m <= |s|
    requires forall k :: j <= k < |s| ==> key(s[k]) > key(x)
    ensures InsertAfterTies(s, x, key) == InsertAfterTies(s[..m], x, key) + s[m..]
    decreases |s| - m
  {
    if m < |s| {
      InsertAfterTiesSuffix(s, j, m + 1, x, key);
      InsertAfterTiesShift(s, m + 1, x, key);
    } else {
      assert s[..m] == s && s[m..] == [];
    }
  }

  /** `x` goes right after the last element whose key is at most its own. */
  lemma InsertAfterTiesAt<T>(s: seq<T>, j: nat, x: T, key: T -> real)
    requires j <= |s|
    requires forall k :: j <= k < |s| ==> key(s[k]) > key(x)
    requires j == 0 || key(s[j - 1]) <= key(x)
    ensures InsertAfterTies(s, x, key) == s[..j] + [x] + s[j..]
  {
    InsertAfterTiesSuffix(s, j, j, x, key);
    InsertAfterTiesStop(s, j, x, key);
  }

  /** Where the gap stops, `x` goes. */
  lemma InsertAfterTiesStop<T>(s: seq<T>, j: nat, x: T, key: T -> real)
    requires j <= |s| && (j == 0 || key(s[j - 1]) <= key(x))
    ensures InsertAfterTies(s[..j], x, key) + s[j..] == s[..j] + [x] + s[j..]
  {
  }

  /**
   * The inner loop of one insertion step: shift the elements of the sorted
   * prefix `a[..i]` whose key exceeds that of `a[i]` one place right, and
   * return where the gap opened.
   */
  method OpenGap<T>(a: array<T>, i: nat, key: T -> real) returns (j: nat)
    requires i < a.Length
    modifies a
    ensures j <= i
    ensures forall k :: 0 <= k < j ==> a[k] == old(a[k])
    ensures forall k :: j < k <= i ==> a[k] == old(a[k - 1])
    ensures forall k :: i < k < a.Length ==> a[k] == old(a[k])
    ensures InsertAfterTies(old(a[..i]), old(a[i]), key) == old(a[..j]) + [old(a[i])] + old(a[j..i])
  {
    ghost var before := a[..];
    var x := a[i];
    j := i;
    while j > 0 && key(a[j - 1]) > key(x)
      invariant 0 <= j <= i
      invariant forall k :: 0 <= k < j ==> a[k] == before[k]
      invariant forall k :: j < k <= i ==> a[k] == before[k - 1]
      invariant forall k :: i < k < a.Length ==> a[k] == before[k]
      invariant forall k :: j <= k < i ==> key(before[k]) > key(x)
    {
      a[j] := a[j - 1];
      j := j - 1;
    }
    ghost var sorted := before[..i];
    InsertAfterTiesAt(sorted, j, x, key);
    assert sorted[..j] == before[..j] && sorted[j..] == before[j..i];
  }

  /** One insertion step: open the gap and drop `a[i]` into it. */
  method InsertStep<T>(a: array<T>, i: nat, key: T -> real)
    requires i < a.Length
    modifies a
    ensures a[..i + 1] == InsertAfterTies(old(a[..i]), old(a[i]), key)
    ensures a[i + 1..] == old(a[i + 1..])
  {
    ghost var before := a[..];
    var x := a[i];
    var j := OpenGap(a, i, key);
    a[j] := x;
    ghost var r := before[..j] + [x] + before[j..i];
    assert a[..i + 1] == r by {
      forall k | 0 <= k <= i ensures a[k] == r[k] { }
    }
    assert a[i + 1..] == before[i + 1..];
  }

  /** Insertion sort of `a` in place, ascending by `key`, stable. */
  method InsertionSort<T>(a: array<T>, key: T -> real)
    modifies a
    ensures a[..] == SortBy(old(a[..]), key)
  {
    ghost var orig := a[..];
    var i := 0;
    while i < a.Length
      invariant 0 <= i <= a.Length
      invariant a[..i] == SortBy(orig[..i], key)
      invariant a[i..] == orig[i..]
    {
      ghost var pre := a[..];
      assert pre[..i] == SortBy(orig[..i], key);
      assert pre[i] == orig[i] by {
        assert pre[i..][0] == orig[i..][0];
      }
      InsertStep(a, i, key);
      assert a[..i + 1] == SortBy(orig[..i + 1], key) by {
        assert orig[..i + 1][..i] == orig[..i];
        assert orig[..i + 1][i] == orig[i];
      }
      assert a[i + 1..] == orig[i + 1..] by {
        assert pre[i + 1..] == pre[i..][1..];
        assert orig[i + 1..] == orig[i..][1..];
      }
      i := i + 1;
    }
    assert a[..] == a[..a.Length];
    assert orig[..a.Length] == orig;
  }
}
