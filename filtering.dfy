/** The sidebar's global filters: the default selections, the four-way
    policy that turns two selections into a view of the table, and the
    single-category slices taken from that view. */
module Filtering {
  import opened Ordering
  import opened Dataset

  /** The pages of the navigation radio. */
  datatype Page = Home | Descriptive | MapPage | About

  /** Only the analysis and map pages show the global filters. */
  predicate ShowsFilters(p: Page)
  {
    p == Descriptive || p == MapPage
  }

  const DEFAULT_CATEGORY_COUNT: nat := 3
  const DEFAULT_DEPARTMENT_COUNT: nat := 5

  /** The categories the sidebar preselects: the first three in sorted
      order, or all of them when there are at most three. */
  function DefaultCategories(d: Table): (r: seq<string>)
    ensures StrictlySorted(r)
    ensures |r| <= DEFAULT_CATEGORY_COUNT
    ensures forall c :: c in r ==> exists x :: x in d && x.category == c
    ensures forall x :: x in d && x.category !in r ==>
              |r| == DEFAULT_CATEGORY_COUNT && forall i :: 0 <= i < |r| ==> Less(r[i], x.category)
  {
    var r := FirstSorted(ColumnValues(d, Category), DEFAULT_CATEGORY_COUNT);
    assert forall c :: c in r ==> exists x :: x in d && x.category == c by {
      forall c | c in r { InColumn(d, Category, c); }
    }
    r
  }

  /** The departments the sidebar preselects: the first five in sorted
      order, or all of them when there are at most five. */
  function DefaultDepartments(d: Table): (r: seq<string>)
    ensures StrictlySorted(r)
    ensures |r| <= DEFAULT_DEPARTMENT_COUNT
    ensures forall c :: c in r ==> exists x :: x in d && x.department == c
    ensures forall x :: x in d && x.department !in r ==>
              |r| == DEFAULT_DEPARTMENT_COUNT && forall i :: 0 <= i < |r| ==> Less(r[i], x.department)
  {
    var r := FirstSorted(ColumnValues(d, Department), DEFAULT_DEPARTMENT_COUNT);
    assert forall c :: c in r ==> exists x :: x in d && x.department == c by {
      forall c | c in r { InColumn(d, Department, c); }
    }
    r
  }

  /** The boolean mask a view applies to each row. */
  datatype Criterion =
    | KeepAll
    | ByCategory(cats: seq<string>)
    | ByDepartment(deps: seq<string>)
    | ByBoth(cats: seq<string>, deps: seq<string>)

  predicate Matches(c: Criterion, r: Record)
  {
    match c
    case KeepAll => true
    case ByCategory(cats) => r.category in cats
    case ByDepartment(deps) => r.department in deps
    case ByBoth(cats, deps) => r.category in cats && r.department in deps
  }

  /** `a` is obtained from `b` by deleting rows, without reordering. */
  predicate IsSubsequence<T(==)>(a: seq<T>, b: seq<T>)
    decreases |b|
  {
    if b == [] then a == []
    else (|a| > 0 && a[0] == b[0] && IsSubsequence(a[1..], b[1..])) || IsSubsequence(a, b[1..])
  }

  /** `df[mask]`: the rows the criterion keeps, in table order. */
  function Select(d: Table, c: Criterion): (v: Table)
    ensures forall r :: r in v <==> r in d && Matches(c, r)
    ensures c == KeepAll ==> v == d
  {
    if d == [] then []
    else
      assert forall r :: r in d <==> r == d[0] || r in d[1..] by {
        assert d == [d[0]] + d[1..];
      }
      var rest := Select(d[1..], c);
      if Matches(c, d[0]) then
        assert c == KeepAll ==> [d[0]] + rest == d by {
          assert d == [d[0]] + d[1..];
        }
        [d[0]] + rest
      else rest
  }

  /** The view keeps the table's row order: it is the table with some rows
      deleted. */
  lemma {:induction false} SelectKeepsOrder(d: Table, c: Criterion)
    ensures IsSubsequence(Select(d, c), d)
  {
    if d != [] {
      SelectKeepsOrder(d[1..], c);
      var rest := Select(d[1..], c);
      if Matches(c, d[0]) {
        assert ([d[0]] + rest)[1..] == rest;
      }
    }
  }

  /** A mask applies row by row: filtering a concatenation filters each
      part. With the singleton case this pins the view down completely,
      duplicates included. */
  lemma {:induction false} SelectAppend(a: Table, b: Table, c: Criterion)
    ensures Select(a + b, c) == Select(a, c) + Select(b, c)
  {
    if a == [] {
      assert a + b == b;
    } else {
      var x, rest := a[0], a[1..];
      var h := if Matches(c, x) then [x] else [];
      calc {
        Select(a + b, c);
      == { assert a + b == [x] + (rest + b); }
        Select([x] + (rest + b), c);
      == { SelectCons(x, rest + b, c); }
        h + Select(rest + b, c);
      == { SelectAppend(rest, b, c); }
        h + (Select(rest, c) + Select(b, c));
      == { AppendAssociative(h, Select(rest, c), Select(b, c)); }
        (h + Select(rest, c)) + Select(b, c);
      == { SelectCons(x, rest, c); assert a == [x] + rest; }
        Select(a, c) + Select(b, c);
      }
    }
  }

  /** The mask decides the first row on its own. */
  lemma SelectCons(x: Record, d: Table, c: Criterion)
    ensures Select([x] + d, c) == (if Matches(c, x) then [x] else []) + Select(d, c)
  {
    assert ([x] + d)[0] == x && ([x] + d)[1..] == d;
  }

  lemma SelectSingleton(r: Record, c: Criterion)
    ensures Select([r], c) == if Matches(c, r) then [r] else []
  {
    assert [r][1..] == [];
  }

  /** A mask no row satisfies gives the empty view. */
  lemma {:induction false} SelectNothing(d: Table, c: Criterion)
    requires forall r :: r in d ==> !Matches(c, r)
    ensures Select(d, c) == []
  {
    if d != [] {
      assert d[0] in d;
      assert forall r :: r in d[1..] ==> r in d;
      SelectNothing(d[1..], c);
    }
  }

  /** The mask chosen by the sidebar: both selections, one of them, or none,
      and no mask at all on pages without filters. */
  function Policy(page: Page, cats: seq<string>, deps: seq<string>): Criterion
  {
    if !ShowsFilters(page) then KeepAll
    else if |cats| > 0 && |deps| > 0 then ByBoth(cats, deps)
    else if |cats| > 0 then ByCategory(cats)
    else if |deps| > 0 then ByDepartment(deps)
    else KeepAll
  }

  /** `filtered_df`, defined for every table (see ViewAsWritten for the
      source's behaviour on an empty one). */
  function GlobalFilter(d: Table, page: Page, cats: seq<string>, deps: seq<string>): (v: Table)
    ensures IsSubsequence(v, d)
    ensures forall r :: r in v ==> r in d
    ensures ShowsFilters(page) && |cats| > 0 && |deps| > 0 ==>
              forall r :: r in v <==> r in d && r.category in cats && r.department in deps
    ensures ShowsFilters(page) && |cats| > 0 && |deps| == 0 ==>
              forall r :: r in v <==> r in d && r.category in cats
    ensures ShowsFilters(page) && |cats| == 0 && |deps| > 0 ==>
              forall r :: r in v <==> r in d && r.department in deps
    ensures !ShowsFilters(page) || (|cats| == 0 && |deps| == 0) ==> v == d
    ensures d == [] ==> v == []
  {
    SelectKeepsOrder(d, Policy(page, cats, deps));
    Select(d, Policy(page, cats, deps))
  }

  /** The source binds `filtered_df` only inside `if not df.empty`, so for an
      empty table there is no view at all. */
  function ViewAsWritten(d: Table, page: Page, cats: seq<string>, deps: seq<string>): Option<Table>
  {
    if |d| == 0 then None else Some(GlobalFilter(d, page, cats, deps))
  }

  /** A CSV holding only its header row loads without error as an empty
      table; the analysis page then reads a view that was never bound, while
      the intended view is simply empty. */
  lemma HeaderOnlyCsvLeavesViewUnbound()
    ensures ShowsFilters(Descriptive) && ShowsFilters(MapPage)
    ensures ViewAsWritten([], Descriptive, [], []) == None
    ensures ViewAsWritten([], MapPage, [], []) == None
    ensures GlobalFilter([], Descriptive, [], []) == []
  {
  }

  /** `df[df["Categoría"] == cat]`: the rows of one category. */
  function CategorySlice(view: Table, cat: string): (s: Table)
    ensures IsSubsequence(s, view)
    ensures forall r :: r in s <==> r in view && r.category == cat
  {
    SelectKeepsOrder(view, ByCategory([cat]));
    Select(view, ByCategory([cat]))
  }
}
