/**
 * Orders on text and the distinct, sorted lists that `SELECT DISTINCT ... ORDER BY ...`
 * and Python's `sorted(set(...))` produce.
 */
module Collation {

  /**
   * Lexicographic order on code points: the order of SQLite's BINARY collation on UTF-8
   * text and of Python's `str` comparison.
   */
  predicate TextLess(a: string, b: string) {
    if |a| == 0 then |b| > 0
    else if |b| == 0 then false
    else a[0] < b[0] || (a[0] == b[0] && TextLess(a[1..], b[1..]))
  }

  lemma {:induction false} TextLessIrreflexive(a: string)
    ensures !TextLess(a, a)
  {
    if |a| > 0 {
      TextLessIrreflexive(a[1..]);
    }
  }

  lemma {:induction false} TextLessTransitive(a: string, b: string, c: string)
    requires TextLess(a, b) && TextLess(b, c)
    ensures TextLess(a, c)
  {
    if |a| > 0 && a[0] == b[0] && b[0] == c[0] {
      TextLessTransitive(a[1..], b[1..], c[1..]);
    }
  }

  lemma {:induction false} TextLessTotal(a: string, b: string)
    requires a != b
    ensures TextLess(a, b) || TextLess(b, a)
  {
    if |a| > 0 && |b| > 0 && a[0] == b[0] {
      assert a == [a[0]] + a[1..] && b == [b[0]] + b[1..];
      TextLessTotal(a[1..], b[1..]);
    }
  }

  ghost predicate StrictTotalOrder<T(!new)>(lt: (T, T) -> bool) {
    && (forall a :: !lt(a, a))
    && (forall a, b, c :: lt(a, b) && lt(b, c) ==> lt(a, c))
    && (forall a, b :: a != b ==> lt(a, b) || lt(b, a))
  }

  /** The order of `ORDER BY <text column>` and of `sorted` on strings. */
  function Ascending(): (a: (string, string) -> bool)
    ensures StrictTotalOrder(a)
  {
    forall x {:trigger TextLess(x, x)} ensures !TextLess(x, x) {
      TextLessIrreflexive(x);
    }
    forall x, y, z | TextLess(x, y) && TextLess(y, z) ensures TextLess(x, z) {
      TextLessTransitive(x, y, z);
    }
    forall x, y | x != y ensures TextLess(x, y) || TextLess(y, x) {
      TextLessTotal(x, y);
    }
    (x: string, y: string) => TextLess(x, y)
  }

  /** The order of `ORDER BY <number> DESC`. */
  function Descending(): (d: (int, int) -> bool)
    ensures StrictTotalOrder(d)
  {
    (x: int, y: int) => x > y
  }

  ghost predicate StrictlySorted<T>(s: seq<T>, lt: (T, T) -> bool) {
    forall i, j :: 0 <= i < j < |s| ==> lt(s[i], s[j])
  }

  /** Adds `x` to a strictly sorted list, unless it is already there. */
  function InsertUnique<T(!new,==)>(x: T, s: seq<T>, lt: (T, T) -> bool): (r: seq<T>)
    requires StrictTotalOrder(lt) && StrictlySorted(s, lt)
    ensures StrictlySorted(r, lt)
    ensures forall y :: y in r <==> y in s || y == x
  {
    if s == [] then [x]
    else if x == s[0] then s
    else if lt(x, s[0]) then [x] + s
    else
      var rest := InsertUnique(x, s[1..], lt);
      assert forall y :: y in rest ==> lt(s[0], y) by {
        forall y | y in rest ensures lt(s[0], y) {
          if y != x {
            var j :| 0 <= j < |s[1..]| && s[1..][j] == y;
            assert s[j + 1] == y;
          }
        }
      }
      [s[0]] + rest
  }

  /** The distinct elements of `xs` in increasing `lt` order. */
  function DistinctSorted<T(!new,==)>(xs: seq<T>, lt: (T, T) -> bool): (r: seq<T>)
    requires StrictTotalOrder(lt)
    ensures StrictlySorted(r, lt)
    ensures forall y :: y in r <==> y in xs
  {
    if xs == [] then []
    else
      var init := xs[..|xs| - 1];
      var r := InsertUnique(xs[|xs| - 1], DistinctSorted(init, lt), lt);
      assert xs == init + [xs[|xs| - 1]];
      r
  }

  /** The first element of a strictly sorted list precedes every other element. */
  lemma FirstIsLeast<T(!new)>(s: seq<T>, lt: (T, T) -> bool, y: T)
    requires StrictlySorted(s, lt) && s != [] && y in s
    ensures y == s[0] || lt(s[0], y)
  {
    var k :| 0 <= k < |s| && s[k] == y;
  }

  /** A strictly sorted list is fixed by its elements: it is THE sorted list of that set. */
  lemma {:induction false} SortedByElements<T(!new)>(s: seq<T>, t: seq<T>, lt: (T, T) -> bool)
    requires StrictTotalOrder(lt) && StrictlySorted(s, lt) && StrictlySorted(t, lt)
    requires forall y :: y in s <==> y in t
    ensures s == t
  {
    assert s == [] <==> t == [] by {
      if s != [] { assert s[0] in t; }
      if t != [] { assert t[0] in s; }
    }
    if s != [] {
      FirstIsLeast(s, lt, t[0]);
      FirstIsLeast(t, lt, s[0]);
      assert s[0] == t[0];
      forall y ensures y in s[1..] <==> y in t[1..] {
        if y in s[1..] {
          var k :| 0 < k < |s| && s[k] == y;
          assert lt(s[0], y) && y in s && y in t;
          var m :| 0 <= m < |t| && t[m] == y;
          assert m != 0 && t[1..][m - 1] == y;
        }
        if y in t[1..] {
          var k :| 0 < k < |t| && t[k] == y;
          assert lt(t[0], y) && y in t && y in s;
          var m :| 0 <= m < |s| && s[m] == y;
          assert m != 0 && s[1..][m - 1] == y;
        }
      }
      SortedByElements(s[1..], t[1..], lt);
      assert s == [s[0]] + s[1..] && t == [t[0]] + t[1..];
    }
  }
}
