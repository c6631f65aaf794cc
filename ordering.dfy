/** Orders the pipeline sorts by: Python's lexicographic string order
    (periods such as "1950-1955" sort chronologically under it) and a
    stable sort by a strict order. */
module Ordering {

  /** Python's `str < str`: code point by code point, a proper prefix first. */
  predicate StrLess(a: string, b: string)
    decreases |a|
  {
    if |a| == 0 then |b| > 0
    else if |b| == 0 then false
    else if a[0] != b[0] then a[0] < b[0]
    else StrLess(a[1..], b[1..])
  }

  lemma {:induction false} StrLessIrreflexive(a: string)
    ensures !StrLess(a, a)
    decreases |a|
  {
    if |a| > 0 {
      StrLessIrreflexive(a[1..]);
    }
  }

  lemma {:induction false} StrLessTransitive(a: string, b: string, c: string)
    requires StrLess(a, b) && StrLess(b, c)
    ensures StrLess(a, c)
    decreases |a|
  {
    if |a| > 0 && a[0] == b[0] && b[0] == c[0] {
      StrLessTransitive(a[1..], b[1..], c[1..]);
    }
  }

  /** Any two distinct strings are ordered one way or the other. */
  lemma {:induction false} StrLessTotal(a: string, b: string)
    ensures StrLess(a, b) || a == b || StrLess(b, a)
    decreases |a|
  {
    if |a| > 0 && |b| > 0 && a[0] == b[0] {
      StrLessTotal(a[1..], b[1..]);
      if a[1..] == b[1..] {
        assert a == [a[0]] + a[1..] && b == [b[0]] + b[1..];
      }
    }
  }

  lemma StrLessAsymmetric(a: string, b: string)
    requires StrLess(a, b)
    ensures !StrLess(b, a)
  {
    if StrLess(b, a) {
      StrLessTransitive(a, b, a);
      StrLessIrreflexive(a);
    }
  }

  /** An irreflexive, transitive relation. */
  ghost predicate StrictOrder<T(!new)>(less: (T, T) -> bool) {
    && (forall x :: !less(x, x))
    && (forall x, y, z :: less(x, y) && less(y, z) ==> less(x, z))
  }

  /** No element is strictly smaller than one before it. */
  ghost predicate SortedBy<T>(s: seq<T>, less: (T, T) -> bool) {
    forall i, j :: 0 <= i < j < |s| ==> !less(s[j], s[i])
  }

  /** Inserts `x` after every element it is not smaller than. */
  function Insert<T>(x: T, s: seq<T>, less: (T, T) -> bool): (r: seq<T>)
    ensures |r| == |s| + 1
  {
    if |s| == 0 then [x]
    else if less(x, s[0]) then [x] + s
    else
      assert s == [s[0]] + s[1..];
      [s[0]] + Insert(x, s[1..], less)
  }

  /** A stable insertion sort: elements that compare equal keep their order. */
  function SortBy<T>(s: seq<T>, less: (T, T) -> bool): (r: seq<T>)
    ensures |r| == |s|
  {
    if |s| == 0 then []
    else
      assert s == s[..|s| - 1] + [s[|s| - 1]];
      Insert(s[|s| - 1], SortBy(s[..|s| - 1], less), less)
  }

  /** Inserting adds exactly `x`. */
  lemma {:induction false} InsertPermutation<T>(x: T, s: seq<T>, less: (T, T) -> bool)
    ensures multiset(Insert(x, s, less)) == multiset(s) + multiset{x}
    decreases |s|
  {
    if |s| > 0 && !less(x, s[0]) {
      InsertPermutation(x, s[1..], less);
      assert s == [s[0]] + s[1..];
    }
  }

  /** Sorting only reorders. */
  lemma {:induction false} SortByPermutation<T>(s: seq<T>, less: (T, T) -> bool)
    ensures multiset(SortBy(s, less)) == multiset(s)
    decreases |s|
  {
    if |s| > 0 {
      var n := |s| - 1;
      SortByPermutation(s[..n], less);
      InsertPermutation(s[n], SortBy(s[..n], less), less);
      assert s == s[..n] + [s[n]];
    }
  }

  /** Inserting brings in nothing but `x`. */
  lemma {:induction false} InsertMembers<T>(x: T, s: seq<T>, less: (T, T) -> bool)
    ensures forall y | y in Insert(x, s, less) :: y == x || y in s
    decreases |s|
  {
    if |s| > 0 && !less(x, s[0]) {
      InsertMembers(x, s[1..], less);
    }
  }

  /** A sorted list stays sorted under a head nothing in it is smaller than. */
  lemma SortedCons<T>(h: T, s: seq<T>, less: (T, T) -> bool)
    requires SortedBy(s, less) && forall y | y in s :: !less(y, h)
    ensures SortedBy([h] + s, less)
  {
    var r := [h] + s;
    forall i, j | 0 <= i < j < |r|
      ensures !less(r[j], r[i])
    {
      assert r[j] == s[j - 1] && r[j] in s;
      if i > 0 {
        assert r[i] == s[i - 1];
      }
    }
  }

  lemma {:induction false} InsertSorted<T(!new)>(x: T, s: seq<T>, less: (T, T) -> bool)
    requires StrictOrder(less) && SortedBy(s, less)
    ensures SortedBy(Insert(x, s, less), less)
    decreases |s|
  {
    if |s| > 0 && !less(x, s[0]) {
      InsertSorted(x, s[1..], less);
      InsertMembers(x, s[1..], less);
      forall y | y in s[1..] ensures !less(y, s[0]) {
        var k :| 0 <= k < |s[1..]| && s[1..][k] == y;
        assert s[k + 1] == y;
      }
      SortedCons(s[0], Insert(x, s[1..], less), less);
    } else if |s| > 0 {
      forall y | y in s ensures !less(y, x) {
        var k :| 0 <= k < |s| && s[k] == y;
        assert !less(s[k], s[0]);
      }
      SortedCons(x, s, less);
    }
  }

  lemma {:induction false} SortBySorted<T(!new)>(s: seq<T>, less: (T, T) -> bool)
    requires StrictOrder(less)
    ensures SortedBy(SortBy(s, less), less)
    decreases |s|
  {
    if |s| > 0 {
      SortBySorted(s[..|s| - 1], less);
      InsertSorted(s[|s| - 1], SortBy(s[..|s| - 1], less), less);
    }
  }

  /** Distinct elements of a sequence that is sorted by a strict total
      order come out strictly increasing when the duplicates are dropped. */
  ghost predicate StrictlyIncreasing(s: seq<string>) {
    forall i, j :: 0 <= i < j < |s| ==> StrLess(s[i], s[j])
  }
}
