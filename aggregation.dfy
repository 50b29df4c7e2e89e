/** The grouped means the analysis pages chart: mean `Valor` per category,
    per department sorted by mean, and the department-by-category pivot. */
module Aggregation {
  import opened Ordering
  import opened Dataset

  function Sum(xs: seq<real>): real
  {
    if xs == [] then 0.0 else xs[0] + Sum(xs[1..])
  }

  /** The arithmetic mean pandas' `mean()` computes. */
  function Mean(xs: seq<real>): real
    requires |xs| > 0
  {
    Sum(xs) / (|xs| as real)
  }

  lemma {:induction false} SumBetween(xs: seq<real>, lo: real, hi: real)
    requires forall i :: 0 <= i < |xs| ==> lo <= xs[i] <= hi
    ensures (|xs| as real) * lo <= Sum(xs) <= (|xs| as real) * hi
  {
    if xs != [] {
      SumBetween(xs[1..], lo, hi);
    }
  }

  /** A mean lies between the smallest and the largest value it averages. */
  lemma MeanBetween(xs: seq<real>, lo: real, hi: real)
    requires |xs| > 0
    requires forall i :: 0 <= i < |xs| ==> lo <= xs[i] <= hi
    ensures lo <= Mean(xs) <= hi
  {
    SumBetween(xs, lo, hi);
    var n := |xs| as real;
    assert n * lo / n == lo && n * hi / n == hi;
  }

  /** N identical values average to that value. */
  lemma MeanOfConstant(xs: seq<real>, v: real)
    requires |xs| > 0
    requires forall i :: 0 <= i < |xs| ==> xs[i] == v
    ensures Mean(xs) == v
  {
    MeanBetween(xs, v, v);
  }

  /** The `Valor` column of the rows whose `col` equals `k`, in table order:
      one group of `groupby(col)["Valor"]`. */
  function ValuesOf(d: Table, col: Column, k: string): (vs: seq<real>)
    ensures |vs| <= |d|
    ensures |vs| > 0 <==> k in ColumnValues(d, col)
  {
    if d == [] then []
    else
      assert ColumnValues(d, col) == [Key(d[0], col)] + ColumnValues(d[1..], col);
      (if Key(d[0], col) == k then [d[0].value] else []) + ValuesOf(d[1..], col, k)
  }

  /** Grouping works row by row: the group of a concatenation is the group
      of each part, in order. With the one-row case this fixes every group:
      each row whose key is `k` contributes its value, once, in table
      order. */
  lemma {:induction false} ValuesOfAppend(a: Table, b: Table, col: Column, k: string)
    ensures ValuesOf(a + b, col, k) == ValuesOf(a, col, k) + ValuesOf(b, col, k)
  {
    if a == [] {
      assert a + b == b;
    } else {
      var x, rest := a[0], a[1..];
      var h := if Key(x, col) == k then [x.value] else [];
      calc {
        ValuesOf(a + b, col, k);
      == { assert (a + b)[0] == x && (a + b)[1..] == rest + b; }
        h + ValuesOf(rest + b, col, k);
      == { ValuesOfAppend(rest, b, col, k); }
        h + (ValuesOf(rest, col, k) + ValuesOf(b, col, k));
      == { AppendAssociative(h, ValuesOf(rest, col, k), ValuesOf(b, col, k)); }
        (h + ValuesOf(rest, col, k)) + ValuesOf(b, col, k);
      }
    }
  }

  /** A single row contributes its value to its own group and to no other. */
  lemma ValuesOfSingleton(r: Record, col: Column, k: string)
    ensures ValuesOf([r], col, k) == if Key(r, col) == k then [r.value] else []
  {
    assert [r][1..] == [];
  }

  /** Every value of a group is the `Valor` of some row of that group. */
  lemma {:induction false} ValuesOfFromRows(d: Table, col: Column, k: string, x: real)
    requires x in ValuesOf(d, col, k)
    ensures exists r :: r in d && Key(r, col) == k && r.value == x
  {
    if d != [] {
      if Key(d[0], col) == k && x == d[0].value {
        assert d[0] in d;
      } else {
        ValuesOfFromRows(d[1..], col, k, x);
        var r :| r in d[1..] && Key(r, col) == k && r.value == x;
        assert r in d;
      }
    }
  }

  /** One row of a grouped-mean series. */
  datatype KeyMean = KeyMean(key: string, mean: real)

  /** `e` is the mean of the group of key `e.key`. */
  predicate IsGroupMean(d: Table, col: Column, e: KeyMean)
  {
    |ValuesOf(d, col, e.key)| > 0 && e.mean == Mean(ValuesOf(d, col, e.key))
  }

  /** Some entry of the series is for key `k`. */
  predicate HasKey(g: seq<KeyMean>, k: string)
  {
    exists i :: 0 <= i < |g| && g[i].key == k
  }

  /** Means of the given keys' groups, key by key. */
  function MeansFor(d: Table, col: Column, ks: seq<string>): seq<KeyMean>
    requires forall k :: k in ks ==> k in ColumnValues(d, col)
  {
    seq(|ks|, i requires 0 <= i < |ks| => KeyMean(ks[i], Mean(ValuesOf(d, col, ks[i]))))
  }

  /** `groupby(col)["Valor"].mean()`: one entry per distinct key, in
      ascending key order (pandas sorts group keys), each the mean of its
      group. */
  function GroupMeans(d: Table, col: Column): (g: seq<KeyMean>)
    ensures forall i, j :: 0 <= i < j < |g| ==> Less(g[i].key, g[j].key)
    ensures forall k :: Occurs(d, col, k) <==> HasKey(g, k)
    ensures forall i :: 0 <= i < |g| ==> IsGroupMean(d, col, g[i])
  {
    var ks := SortedDistinct(ColumnValues(d, col));
    var g := MeansFor(d, col, ks);
    forall k ensures Occurs(d, col, k) <==> HasKey(g, k) {
      InColumn(d, col, k);
      if k in ks {
        var i :| 0 <= i < |ks| && ks[i] == k;
        assert g[i].key == k;
      }
      if HasKey(g, k) {
        var i :| 0 <= i < |g| && g[i].key == k;
        assert ks[i] == k;
      }
    }
    g
  }

  /** The overview bar chart: mean value per category. */
  function MeansByCategory(d: Table): (g: seq<KeyMean>)
    ensures forall i, j :: 0 <= i < j < |g| ==> Less(g[i].key, g[j].key)
    ensures forall c :: Occurs(d, Category, c) <==> HasKey(g, c)
    ensures forall i :: 0 <= i < |g| ==> IsGroupMean(d, Category, g[i])
  {
    GroupMeans(d, Category)
  }

  predicate NonIncreasing(s: seq<KeyMean>)
  {
    forall i, j :: 0 <= i < j < |s| ==> s[i].mean >= s[j].mean
  }

  predicate DistinctKeys(s: seq<KeyMean>)
  {
    forall i, j :: 0 <= i < j < |s| ==> s[i].key != s[j].key
  }

  /** Places `x` before the first entry whose mean it is at least. */
  function InsertByMean(s: seq<KeyMean>, x: KeyMean): (r: seq<KeyMean>)
    requires NonIncreasing(s)
    ensures NonIncreasing(r)
    ensures |r| == |s| + 1
    ensures forall y :: y in r <==> y in s || y == x
    ensures multiset(r) == multiset(s) + multiset{x}
  {
    if s == [] then [x]
    else if x.mean >= s[0].mean then
      assert forall y :: y in s ==> x.mean >= y.mean by {
        forall y | y in s ensures x.mean >= y.mean {
          var j :| 0 <= j < |s| && s[j] == y;
        }
      }
      ConsKeepsNonIncreasing(x, s);
      [x] + s
    else
      var head, rest := s[0], s[1..];
      assert s == [head] + rest;
      assert NonIncreasing(rest) && forall y :: y in rest ==> head.mean >= y.mean by {
        forall y | y in rest ensures head.mean >= y.mean {
          var j :| 0 <= j < |rest| && rest[j] == y;
          assert s[j + 1] == y;
        }
      }
      var t := InsertByMean(rest, x);
      ConsKeepsNonIncreasing(head, t);
      [head] + t
  }

  lemma ConsKeepsNonIncreasing(e: KeyMean, t: seq<KeyMean>)
    requires NonIncreasing(t)
    requires forall y :: y in t ==> e.mean >= y.mean
    ensures NonIncreasing([e] + t)
  {
    var r := [e] + t;
    forall i, j | 0 <= i < j < |r| ensures r[i].mean >= r[j].mean {
      assert r[j] == t[j - 1];
      if i > 0 {
        assert r[i] == t[i - 1];
      } else {
        assert t[j - 1] in t;
      }
    }
  }

  lemma {:induction false} InsertByMeanKeepsKeysDistinct(s: seq<KeyMean>, x: KeyMean)
    requires NonIncreasing(s) && DistinctKeys(s)
    requires forall y :: y in s ==> y.key != x.key
    ensures DistinctKeys(InsertByMean(s, x))
  {
    if s == [] {
    } else if x.mean >= s[0].mean {
      ConsKeepsKeysDistinct(x, s);
    } else {
      var head, rest := s[0], s[1..];
      assert s == [head] + rest;
      InsertByMeanKeepsKeysDistinct(rest, x);
      var t := InsertByMean(rest, x);
      assert forall y :: y in rest ==> y.key != head.key by {
        forall y | y in rest ensures y.key != head.key {
          var j :| 0 <= j < |rest| && rest[j] == y;
          assert s[j + 1] == y;
        }
      }
      ConsKeepsKeysDistinct(head, t);
    }
  }

  lemma ConsKeepsKeysDistinct(e: KeyMean, t: seq<KeyMean>)
    requires DistinctKeys(t)
    requires forall y :: y in t ==> y.key != e.key
    ensures DistinctKeys([e] + t)
  {
    var r := [e] + t;
    forall i, j | 0 <= i < j < |r| ensures r[i].key != r[j].key {
      assert r[j] == t[j - 1];
      if i > 0 {
        assert r[i] == t[i - 1];
      } else {
        assert t[j - 1] in t;
      }
    }
  }

  /** `sort_values(ascending=False)` on the means. */
  function SortByMeanDescending(s: seq<KeyMean>): (r: seq<KeyMean>)
    ensures NonIncreasing(r)
    ensures |r| == |s|
    ensures forall y :: y in r <==> y in s
    ensures multiset(r) == multiset(s)
    ensures DistinctKeys(s) ==> DistinctKeys(r)
  {
    if s == [] then []
    else
      assert s == [s[0]] + s[1..];
      assert multiset(s) == multiset(s[1..]) + multiset{s[0]};
      var t := SortByMeanDescending(s[1..]);
      if DistinctKeys(s) then
        SortedTailKeepsKeysDistinct(s, t);
        InsertByMean(t, s[0])
      else
        InsertByMean(t, s[0])
  }

  lemma SortedTailKeepsKeysDistinct(s: seq<KeyMean>, t: seq<KeyMean>)
    requires |s| > 0 && DistinctKeys(s)
    requires NonIncreasing(t) && (DistinctKeys(s[1..]) ==> DistinctKeys(t))
    requires forall y :: y in t <==> y in s[1..]
    ensures DistinctKeys(InsertByMean(t, s[0]))
  {
    assert DistinctKeys(s[1..]) by {
      forall i, j | 0 <= i < j < |s[1..]| ensures s[1..][i].key != s[1..][j].key {
        assert s[1..][i] == s[i + 1] && s[1..][j] == s[j + 1];
      }
    }
    forall y | y in t ensures y.key != s[0].key {
      var j :| 0 <= j < |s[1..]| && s[1..][j] == y;
      assert s[j + 1] == y;
    }
    InsertByMeanKeepsKeysDistinct(t, s[0]);
  }

  /** The department bar chart: one entry per department of the view, each
      its mean, ordered from the largest mean down. */
  function MeansByDepartment(d: Table): (g: seq<KeyMean>)
    ensures forall i, j :: 0 <= i < j < |g| ==> g[i].mean >= g[j].mean
    ensures forall i, j :: 0 <= i < j < |g| ==> g[i].key != g[j].key
    ensures forall k :: Occurs(d, Department, k) <==> HasKey(g, k)
    ensures forall i :: 0 <= i < |g| ==> IsGroupMean(d, Department, g[i])
  {
    var means := GroupMeans(d, Department);
    assert DistinctKeys(means) by {
      forall i, j | 0 <= i < j < |means| ensures means[i].key != means[j].key {
        LessIrreflexive(means[i].key);
      }
    }
    var g := SortByMeanDescending(means);
    SameEntriesSameGroups(d, Department, means, g);
    g
  }

  /** Reordering a grouped-mean series keeps it a grouped-mean series of
      the same keys. */
  lemma SameEntriesSameGroups(d: Table, col: Column, a: seq<KeyMean>, b: seq<KeyMean>)
    requires forall y :: y in a <==> y in b
    requires forall i :: 0 <= i < |a| ==> IsGroupMean(d, col, a[i])
    requires forall k :: Occurs(d, col, k) <==> HasKey(a, k)
    ensures forall i :: 0 <= i < |b| ==> IsGroupMean(d, col, b[i])
    ensures forall k :: Occurs(d, col, k) <==> HasKey(b, k)
  {
    forall i | 0 <= i < |b| ensures IsGroupMean(d, col, b[i]) {
      assert b[i] in a;
    }
    forall k ensures HasKey(a, k) <==> HasKey(b, k) {
      if HasKey(a, k) {
        var i :| 0 <= i < |a| && a[i].key == k;
        assert a[i] in b;
      }
      if HasKey(b, k) {
        var i :| 0 <= i < |b| && b[i].key == k;
        assert b[i] in a;
      }
    }
  }

  /** Some row has this department and this category. */
  predicate HasPair(d: Table, dep: string, cat: string)
  {
    exists r :: r in d && r.department == dep && r.category == cat
  }

  /** The values of one (department, category) cell. */
  function PairValues(d: Table, dep: string, cat: string): (vs: seq<real>)
    ensures |vs| > 0 <==> HasPair(d, dep, cat)
  {
    if d == [] then []
    else
      assert forall r :: r in d <==> r == d[0] || r in d[1..] by {
        assert d == [d[0]] + d[1..];
      }
      (if d[0].department == dep && d[0].category == cat then [d[0].value] else [])
        + PairValues(d[1..], dep, cat)
  }

  /** A cell is filled row by row: the cell of a concatenation is the cell
      of each part, in order. */
  lemma {:induction false} PairValuesAppend(a: Table, b: Table, dep: string, cat: string)
    ensures PairValues(a + b, dep, cat) == PairValues(a, dep, cat) + PairValues(b, dep, cat)
  {
    if a == [] {
      assert a + b == b;
    } else {
      var x, rest := a[0], a[1..];
      var h := if x.department == dep && x.category == cat then [x.value] else [];
      calc {
        PairValues(a + b, dep, cat);
      == { assert (a + b)[0] == x && (a + b)[1..] == rest + b; }
        h + PairValues(rest + b, dep, cat);
      == { PairValuesAppend(rest, b, dep, cat); }
        h + (PairValues(rest, dep, cat) + PairValues(b, dep, cat));
      == { AppendAssociative(h, PairValues(rest, dep, cat), PairValues(b, dep, cat)); }
        (h + PairValues(rest, dep, cat)) + PairValues(b, dep, cat);
      }
    }
  }

  /** A single row contributes its value to its own cell and to no other. */
  lemma PairValuesSingleton(r: Record, dep: string, cat: string)
    ensures PairValues([r], dep, cat) == if r.department == dep && r.category == cat then [r.value] else []
  {
    assert [r][1..] == [];
  }

  /** A pivot-table cell: the mean of its values, 0 where `fillna(0)` fills
      a combination that does not occur. */
  function CellMean(d: Table, dep: string, cat: string): real
  {
    var vs := PairValues(d, dep, cat);
    if |vs| == 0 then 0.0 else Mean(vs)
  }

  /** Rows are departments, columns are categories, both in sorted order. */
  datatype Pivot = Pivot(departments: seq<string>, categories: seq<string>, cells: seq<seq<real>>)

  /** The grid of cell means, one row per department and one column per
      category. */
  function PivotCells(d: Table, deps: seq<string>, cats: seq<string>): seq<seq<real>>
  {
    seq(|deps|, i requires 0 <= i < |deps| =>
      seq(|cats|, j requires 0 <= j < |cats| => CellMean(d, deps[i], cats[j])))
  }

  /** `pivot_table(index="Departamento", columns="Categoría", values="Valor",
      aggfunc="mean").fillna(0)`. */
  function PivotMeans(d: Table): (p: Pivot)
    ensures StrictlySorted(p.departments)
    ensures forall k :: k in p.departments <==> Occurs(d, Department, k)
    ensures StrictlySorted(p.categories)
    ensures forall c :: c in p.categories <==> Occurs(d, Category, c)
    ensures |p.cells| == |p.departments|
    ensures forall i :: 0 <= i < |p.cells| ==> |p.cells[i]| == |p.categories|
    ensures forall i, j :: 0 <= i < |p.departments| && 0 <= j < |p.categories| ==>
              (HasPair(d, p.departments[i], p.categories[j]) ==>
                 |PairValues(d, p.departments[i], p.categories[j])| > 0 &&
                 p.cells[i][j] == Mean(PairValues(d, p.departments[i], p.categories[j])))
    ensures forall i, j :: 0 <= i < |p.departments| && 0 <= j < |p.categories| ==>
              (!HasPair(d, p.departments[i], p.categories[j]) ==> p.cells[i][j] == 0.0)
  {
    var deps := SortedDistinct(ColumnValues(d, Department));
    var cats := SortedDistinct(ColumnValues(d, Category));
    forall k ensures k in deps <==> Occurs(d, Department, k) {
      InColumn(d, Department, k);
    }
    forall c ensures c in cats <==> Occurs(d, Category, c) {
      InColumn(d, Category, c);
    }
    Pivot(deps, cats, PivotCells(d, deps, cats))
  }

  /** A cell whose pair occurs lies within any bounds on the table's
      values, so with values all above 0 such a cell is never 0; the 0 of
      an absent pair is the zero-fill that PivotMeans states. */
  lemma PivotCellBounds(d: Table, i: nat, j: nat, lo: real, hi: real)
    requires i < |PivotMeans(d).departments| && j < |PivotMeans(d).categories|
    requires forall r :: r in d ==> lo <= r.value <= hi
    ensures var p := PivotMeans(d);
            HasPair(d, p.departments[i], p.categories[j]) ==> lo <= p.cells[i][j] <= hi
  {
    var p := PivotMeans(d);
    var dep, cat := p.departments[i], p.categories[j];
    if HasPair(d, dep, cat) {
      var vs := PairValues(d, dep, cat);
      forall t | 0 <= t < |vs| ensures lo <= vs[t] <= hi {
        PairValuesFromRows(d, dep, cat, vs[t]);
      }
      MeanBetween(vs, lo, hi);
    }
  }

  lemma {:induction false} PairValuesFromRows(d: Table, dep: string, cat: string, x: real)
    requires x in PairValues(d, dep, cat)
    ensures exists r :: r in d && r.department == dep && r.category == cat && r.value == x
  {
    if d != [] {
      if d[0].department == dep && d[0].category == cat && x == d[0].value {
        assert d[0] in d;
      } else {
        PairValuesFromRows(d[1..], dep, cat, x);
        var r :| r in d[1..] && r.department == dep && r.category == cat && r.value == x;
        assert r in d;
      }
    }
  }

  /** Every group mean lies between the smallest and largest value of the
      table. */
  lemma GroupMeanBounds(d: Table, col: Column, i: nat, lo: real, hi: real)
    requires i < |GroupMeans(d, col)|
    requires forall r :: r in d ==> lo <= r.value <= hi
    ensures lo <= GroupMeans(d, col)[i].mean <= hi
  {
    var g := GroupMeans(d, col);
    var vs := ValuesOf(d, col, g[i].key);
    forall t | 0 <= t < |vs| ensures lo <= vs[t] <= hi {
      ValuesOfFromRows(d, col, g[i].key, vs[t]);
    }
    MeanBetween(vs, lo, hi);
  }
}
