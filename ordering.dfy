/** The ordering Python's `sorted` uses on `str` values (lexicographic by code
    point), and the sorted list of distinct values that `sorted(col.unique())`
    produces. */
module Ordering {

  /** Strict lexicographic order on strings: a proper prefix comes first,
      otherwise the first differing character decides. */
  predicate Less(a: string, b: string)
    decreases |a|
  {
    |b| > 0 && (|a| == 0 || a[0] < b[0] || (a[0] == b[0] && Less(a[1..], b[1..])))
  }

  lemma {:induction false} LessIrreflexive(a: string)
    ensures !Less(a, a)
  {
    if |a| > 0 {
      LessIrreflexive(a[1..]);
    }
  }

  lemma {:induction false} LessTransitive(a: string, b: string, c: string)
    requires Less(a, b) && Less(b, c)
    ensures Less(a, c)
  {
    if |a| > 0 && a[0] == b[0] && b[0] == c[0] {
      LessTransitive(a[1..], b[1..], c[1..]);
    }
  }

  lemma {:induction false} LessTotal(a: string, b: string)
    requires a != b
    ensures Less(a, b) || Less(b, a)
  {
    if |a| > 0 && |b| > 0 && a[0] == b[0] {
      assert a == [a[0]] + a[1..] && b == [b[0]] + b[1..];
      LessTotal(a[1..], b[1..]);
    }
  }

  lemma LessAsymmetric(a: string, b: string)
    requires Less(a, b)
    ensures !Less(b, a)
  {
    if Less(b, a) {
      LessTransitive(a, b, a);
      LessIrreflexive(a);
    }
  }

  /** Every element precedes every later one: sorted and free of duplicates. */
  predicate StrictlySorted(s: seq<string>)
  {
    forall i, j :: 0 <= i < j < |s| ==> Less(s[i], s[j])
  }

  /** Places `x` in a strictly sorted list, unless it is already there. */
  function Insert(s: seq<string>, x: string): (r: seq<string>)
    requires StrictlySorted(s)
    ensures StrictlySorted(r)
    ensures forall y :: y in r <==> y in s || y == x
  {
    if s == [] then [x]
    else if x == s[0] then s
    else if Less(x, s[0]) then
      assert forall j :: 0 <= j < |s| ==> Less(x, s[j]) by {
        forall j | 0 < j < |s| {
          LessTransitive(x, s[0], s[j]);
        }
      }
      [x] + s
    else
      LessTotal(x, s[0]);
      var t := Insert(s[1..], x);
      assert forall y :: y in t ==> Less(s[0], y);
      [s[0]] + t
  }

  /** `sorted(set(xs))`: the distinct values of `xs` in ascending order. */
  function SortedDistinct(xs: seq<string>): (r: seq<string>)
    ensures StrictlySorted(r)
    ensures forall y :: y in r <==> y in xs
  {
    if xs == [] then []
    else
      assert forall y :: y in xs <==> y == xs[0] || y in xs[1..] by {
        assert xs == [xs[0]] + xs[1..];
      }
      Insert(SortedDistinct(xs[1..]), xs[0])
  }

  /** A strictly sorted list is determined by its elements: whatever builds
      it, SortedDistinct is the one ascending list of the distinct values. */
  lemma {:induction false} SortedUnique(a: seq<string>, b: seq<string>)
    requires StrictlySorted(a) && StrictlySorted(b)
    requires forall y :: y in a <==> y in b
    ensures a == b
  {
    assert a != [] ==> a[0] in b;
    assert b != [] ==> b[0] in a;
    if a != [] {
      if a[0] != b[0] {
        assert a[0] in b && b[0] in a;
        var k :| 0 <= k < |b| && b[k] == a[0];
        var m :| 0 <= m < |a| && a[m] == b[0];
        assert k > 0 && m > 0;
        LessAsymmetric(b[0], a[0]);
        assert false;
      }
      forall y
        ensures y in a[1..] <==> y in b[1..]
      {
        if y in a[1..] {
          var i :| 1 <= i < |a| && a[i] == y;
          assert Less(a[0], a[i]);
          LessIrreflexive(a[0]);
          assert y in b;
        }
        if y in b[1..] {
          var i :| 1 <= i < |b| && b[i] == y;
          assert Less(b[0], b[i]);
          LessIrreflexive(b[0]);
          assert y in a;
        }
      }
      SortedUnique(a[1..], b[1..]);
      assert a == [a[0]] + a[1..] && b == [b[0]] + b[1..];
    }
  }

  /** `s[:n] if len(s) > n else s`. */
  function FirstN(s: seq<string>, n: nat): seq<string>
  {
    if |s| > n then s[..n] else s
  }

  /** What the sidebar preselects from a column: the first `n` of its sorted
      distinct values, or all of them when there are at most `n`. Stated
      without reference to the construction: the result is sorted, holds only
      column values, and leaves a value out only when it has already kept `n`
      values that all precede it. */
  function FirstSorted(keys: seq<string>, n: nat): (r: seq<string>)
    ensures StrictlySorted(r)
    ensures |r| <= n
    ensures forall y :: y in r ==> y in keys
    ensures forall y :: y in keys && y !in r ==>
              |r| == n && forall i :: 0 <= i < |r| ==> Less(r[i], y)
  {
    var all := SortedDistinct(keys);
    var r := FirstN(all, n);
    assert forall y :: y in keys && y !in r ==>
              |r| == n && forall i :: 0 <= i < |r| ==> Less(r[i], y) by {
      forall y | y in keys && y !in r
        ensures |r| == n && forall i :: 0 <= i < |r| ==> Less(r[i], y)
      {
        var k :| 0 <= k < |all| && all[k] == y;
        assert k >= n;
      }
    }
    r
  }

  /** When a column has at most `n` distinct values, the preselection is all
      of them, in ascending order. */
  lemma FirstSortedAll(keys: seq<string>, n: nat, expected: seq<string>)
    requires StrictlySorted(expected) && |expected| <= n
    requires forall y :: y in expected <==> y in keys
    ensures FirstSorted(keys, n) == expected
  {
    SortedUnique(SortedDistinct(keys), expected);
  }
}
