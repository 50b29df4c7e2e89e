/** The "Correlaciones" tab: which two categories it compares by default,
    and the inner join of their slices on the department, which the scatter
    plot and the correlation coefficient are computed from. */
module Correlation {
  import opened Dataset
  import opened Filtering

  /** `Series.unique()`: the distinct values in order of first appearance. */
  function Unique(xs: seq<string>): (u: seq<string>)
    ensures forall i, j :: 0 <= i < j < |u| ==> u[i] != u[j]
    ensures forall y :: y in u <==> y in xs
    ensures |xs| > 0 ==> |u| > 0 && u[0] == xs[0]
  {
    if xs == [] then []
    else
      var init, last := xs[..|xs| - 1], xs[|xs| - 1];
      assert xs == init + [last];
      var u := Unique(init);
      if last in u then u else u + [last]
  }

  /** The second distinct value is the first one that differs from the
      first value, and everything before it equals the first value. */
  lemma {:induction false} UniqueSecond(xs: seq<string>)
    requires |Unique(xs)| >= 2
    ensures exists k :: 0 < k < |xs| && xs[k] == Unique(xs)[1] && forall i :: 0 <= i < k ==> xs[i] == xs[0]
  {
    assert xs != [];
    var init, last := xs[..|xs| - 1], xs[|xs| - 1];
    assert xs == init + [last];
    var u := Unique(init);
    if |u| >= 2 {
      UniqueSecond(init);
      var k :| 0 < k < |init| && init[k] == u[1] && forall i :: 0 <= i < k ==> init[i] == init[0];
      assert xs[k] == Unique(xs)[1];
      assert forall i :: 0 <= i < k ==> xs[i] == xs[0];
    } else {
      assert init != [];
      assert |u| == 1 && u[0] == init[0];
      assert Unique(xs) == u + [last];
      forall i | 0 <= i < |init| ensures xs[i] == xs[0] {
        assert init[i] in u;
      }
      assert xs[|xs| - 1] == Unique(xs)[1];
    }
  }

  /** Row `k` is the first row whose category differs from row 0's. */
  predicate FirstOtherCategory(view: Table, k: int)
  {
    0 < k < |view| && view[k].category != view[0].category &&
    forall i :: 0 <= i < k ==> view[i].category == view[0].category
  }

  /** What the comparison tab shows before the user picks: nothing for an
      empty view, the notice asking for two categories when the view has a
      single category, and otherwise the two preselected categories. */
  datatype ComparisonTab = Hidden | Notice | Compare(first: string, second: string)

  /** The two selectboxes default to the first and the second entry of
      `unique()` (`index=0` and `index=min(1, n - 1)`, which is 1 once two
      categories exist). */
  function DefaultComparison(view: Table): (c: ComparisonTab)
    ensures c.Hidden? <==> view == []
    ensures c.Notice? <==> |view| > 0 && forall i :: 0 <= i < |view| ==> view[i].category == view[0].category
    ensures c.Compare? ==> |view| > 0 && c.first == view[0].category && c.second != c.first
    ensures c.Compare? ==> exists k :: FirstOtherCategory(view, k) && view[k].category == c.second
  {
    if view == [] then Hidden
    else
      var cats := ColumnValues(view, Category);
      var u := Unique(cats);
      if |u| >= 2 then
        UniqueSecond(cats);
        Compare(u[0], u[1])
      else
        assert forall i :: 0 <= i < |view| ==> view[i].category == view[0].category by {
          forall i | 0 <= i < |view| ensures view[i].category == view[0].category {
            assert cats[i] in u;
          }
        }
        Notice
  }

  /** One row of the merged frame: the department and the two values. */
  datatype Joined = Joined(department: string, first: real, second: real)

  function PairRow(a: Record, b: Record): Joined
  {
    Joined(a.department, a.value, b.value)
  }

  /** Row `i` of `left` and row `j` of `right` share a department. */
  predicate PairAt(left: Table, right: Table, i: int, j: int)
  {
    0 <= i < |left| && 0 <= j < |right| && left[i].department == right[j].department
  }

  /** The rows of `right` that join one row of the left slice. */
  function JoinRow(l: Record, right: Table): (m: seq<Joined>)
    ensures forall x :: x in m <==> exists j :: PairAt([l], right, 0, j) && x == PairRow(l, right[j])
  {
    if right == [] then []
    else
      var rest := JoinRow(l, right[1..]);
      forall x | x in rest ensures exists j :: PairAt([l], right, 0, j) && x == PairRow(l, right[j]) {
        var j :| PairAt([l], right[1..], 0, j) && x == PairRow(l, right[1..][j]);
        assert PairAt([l], right, 0, j + 1);
      }
      forall j | PairAt([l], right, 0, j) && j > 0 ensures PairRow(l, right[j]) in rest {
        assert PairAt([l], right[1..], 0, j - 1);
      }
      (if right[0].department == l.department then [PairRow(l, right[0])] else []) + rest
  }

  /** The joined rows of one left row are built right row by right row: one
      joined row per matching right row, in the right slice's order. */
  lemma {:induction false} JoinRowAppend(l: Record, a: Table, b: Table)
    ensures JoinRow(l, a + b) == JoinRow(l, a) + JoinRow(l, b)
  {
    if a == [] {
      assert a + b == b;
    } else {
      var x, rest := a[0], a[1..];
      var h := if x.department == l.department then [PairRow(l, x)] else [];
      calc {
        JoinRow(l, a + b);
      == { assert (a + b)[0] == x && (a + b)[1..] == rest + b; }
        h + JoinRow(l, rest + b);
      == { JoinRowAppend(l, rest, b); }
        h + (JoinRow(l, rest) + JoinRow(l, b));
      == { AppendAssociative(h, JoinRow(l, rest), JoinRow(l, b)); }
        (h + JoinRow(l, rest)) + JoinRow(l, b);
      }
    }
  }

  /** One right row joins a left row once if their departments agree, and
      not at all otherwise. */
  lemma JoinRowSingleton(l: Record, r: Record)
    ensures JoinRow(l, [r]) == if r.department == l.department then [PairRow(l, r)] else []
  {
    assert [r][1..] == [];
  }

  /** `pd.merge(left, right, on="Departamento")` (inner join): every pair of
      a left row and a right row with the same department, and nothing else. */
  function Merge(left: Table, right: Table): (m: seq<Joined>)
    ensures forall x :: x in m ==> exists i, j :: PairAt(left, right, i, j) && x == PairRow(left[i], right[j])
    ensures forall i, j :: PairAt(left, right, i, j) ==> PairRow(left[i], right[j]) in m
  {
    if left == [] then []
    else
      var head, rest := JoinRow(left[0], right), Merge(left[1..], right);
      forall x | x in head ensures exists i, j :: PairAt(left, right, i, j) && x == PairRow(left[i], right[j]) {
        var j :| PairAt([left[0]], right, 0, j) && x == PairRow(left[0], right[j]);
        assert PairAt(left, right, 0, j);
      }
      forall x | x in rest ensures exists i, j :: PairAt(left, right, i, j) && x == PairRow(left[i], right[j]) {
        var i, j :| PairAt(left[1..], right, i, j) && x == PairRow(left[1..][i], right[j]);
        assert PairAt(left, right, i + 1, j);
      }
      forall i, j | PairAt(left, right, i, j) ensures PairRow(left[i], right[j]) in head + rest {
        if i == 0 {
          assert PairAt([left[0]], right, 0, j);
        } else {
          assert PairAt(left[1..], right, i - 1, j);
        }
      }
      head + rest
  }

  /** The merge is built left row by left row: the rows of a concatenated
      left slice are those of each part, in order. With JoinRowAppend and
      the one-row cases this fixes the merge completely: each pair of a
      left row and a right row from the same department appears exactly
      once, ordered by left row and then by right row. */
  lemma {:induction false} MergeAppend(a: Table, b: Table, right: Table)
    ensures Merge(a + b, right) == Merge(a, right) + Merge(b, right)
  {
    if a == [] {
      assert a + b == b;
    } else {
      var x, rest := a[0], a[1..];
      var h := JoinRow(x, right);
      calc {
        Merge(a + b, right);
      == { assert (a + b)[0] == x && (a + b)[1..] == rest + b; }
        h + Merge(rest + b, right);
      == { MergeAppend(rest, b, right); }
        h + (Merge(rest, right) + Merge(b, right));
      == { AppendAssociative(h, Merge(rest, right), Merge(b, right)); }
        (h + Merge(rest, right)) + Merge(b, right);
      }
    }
  }

  /** A one-row left slice merges into exactly that row's joined rows. */
  lemma MergeSingleton(l: Record, right: Table)
    ensures Merge([l], right) == JoinRow(l, right)
  {
    assert [l][1..] == [];
  }

  /** The join is empty exactly when no department occurs in both slices:
      the case in which the tab shows no plot and no coefficient. */
  lemma MergeEmpty(left: Table, right: Table)
    ensures Merge(left, right) == [] <==> forall i, j :: !PairAt(left, right, i, j)
  {
    var m := Merge(left, right);
    if m != [] {
      assert m[0] in m;
    }
  }

  /** `a` is a row of the first category and `b` a row of the second, from
      the same department of the view. */
  predicate Comparable(view: Table, cat1: string, cat2: string, a: Record, b: Record)
  {
    a in view && b in view && a.category == cat1 && b.category == cat2 && a.department == b.department
  }

  /** `df_merged` for the two chosen categories of the view. */
  function JoinCategories(view: Table, cat1: string, cat2: string): (m: seq<Joined>)
    ensures forall x :: x in m ==> exists a, b :: Comparable(view, cat1, cat2, a, b) && x == PairRow(a, b)
    ensures forall a, b :: Comparable(view, cat1, cat2, a, b) ==> PairRow(a, b) in m
  {
    var left, right := CategorySlice(view, cat1), CategorySlice(view, cat2);
    var m := Merge(left, right);
    forall x | x in m ensures exists a, b :: Comparable(view, cat1, cat2, a, b) && x == PairRow(a, b) {
      var i, j :| PairAt(left, right, i, j) && x == PairRow(left[i], right[j]);
      assert left[i] in left && right[j] in right;
      assert Comparable(view, cat1, cat2, left[i], right[j]);
    }
    forall a, b | Comparable(view, cat1, cat2, a, b) ensures PairRow(a, b) in m {
      assert a in left && b in right;
      var i :| 0 <= i < |left| && left[i] == a;
      var j :| 0 <= j < |right| && right[j] == b;
      assert PairAt(left, right, i, j);
    }
    m
  }

  /** The tab has nothing to plot exactly when no department has a row of
      each of the two categories. */
  lemma JoinEmpty(view: Table, cat1: string, cat2: string)
    ensures JoinCategories(view, cat1, cat2) == [] <==> forall a, b :: !Comparable(view, cat1, cat2, a, b)
  {
    var m := JoinCategories(view, cat1, cat2);
    if m != [] {
      assert m[0] in m;
    }
  }

  /** Swapping the two categories swaps the two values of every joined
      pair, so the pairs the coefficient is computed from are the same. */
  lemma JoinSwap(view: Table, cat1: string, cat2: string, dep: string, x: real, y: real)
    ensures Joined(dep, x, y) in JoinCategories(view, cat1, cat2) <==>
            Joined(dep, y, x) in JoinCategories(view, cat2, cat1)
  {
    if Joined(dep, x, y) in JoinCategories(view, cat1, cat2) {
      var a, b :| Comparable(view, cat1, cat2, a, b) && Joined(dep, x, y) == PairRow(a, b);
      assert Comparable(view, cat2, cat1, b, a);
    }
    if Joined(dep, y, x) in JoinCategories(view, cat2, cat1) {
      var b, a :| Comparable(view, cat2, cat1, b, a) && Joined(dep, y, x) == PairRow(b, a);
      assert Comparable(view, cat1, cat2, a, b);
    }
  }
}
