/** What the pipeline computes on the sample table `load_data` falls back
    to: three rows, three departments, three categories, no department
    shared between two categories. */
module Scenarios {
  import opened Ordering
  import opened Dataset
  import opened Filtering
  import opened Aggregation
  import opened Correlation

  const GUAJIRA := Record("La Guajira", "Velocidad del viento", 7.5, 11.5, -72.9)
  const ATLANTICO := Record("Atlántico", "Potencial eólico", 150.0, 10.9, -74.8)
  const BOLIVAR := Record("Bolívar", "Proyectos instalados", 5.0, 10.4, -75.5)

  lemma FallbackRows()
    ensures FallbackTable() == [GUAJIRA, ATLANTICO, BOLIVAR]
  {
  }

  /** The fallback's categories, in Python's sorted order. */
  lemma SortedFallbackCategories()
    ensures StrictlySorted(["Potencial eólico", "Proyectos instalados", "Velocidad del viento"])
  {
    assert Less("Potencial eólico", "Proyectos instalados") by {
      assert "Potencial eólico"[1..] == "otencial eólico";
      assert "Proyectos instalados"[1..] == "royectos instalados";
    }
    LessTransitive("Potencial eólico", "Proyectos instalados", "Velocidad del viento");
  }

  /** The fallback's departments, in Python's sorted order (by code point,
      so "Atlántico" < "Bolívar" < "La Guajira"). */
  lemma SortedFallbackDepartments()
    ensures StrictlySorted(["Atlántico", "Bolívar", "La Guajira"])
  {
  }

  /** Selecting only "Potencial eólico" on the analysis page leaves the one
      Atlántico row, with value 150. */
  lemma FallbackCategoryFilter()
    ensures GlobalFilter(FallbackTable(), Descriptive, ["Potencial eólico"], []) == [ATLANTICO]
  {
    var c := ByCategory(["Potencial eólico"]);
    assert Policy(Descriptive, ["Potencial eólico"], []) == c;
    FallbackRows();
    assert !Matches(c, GUAJIRA) && Matches(c, ATLANTICO) && !Matches(c, BOLIVAR);
    SelectSingleton(GUAJIRA, c);
    SelectSingleton(ATLANTICO, c);
    SelectSingleton(BOLIVAR, c);
    SelectAppend([ATLANTICO], [BOLIVAR], c);
    assert [ATLANTICO] + [BOLIVAR] == [ATLANTICO, BOLIVAR];
    assert Select([ATLANTICO, BOLIVAR], c) == [ATLANTICO];
    SelectAppend([GUAJIRA], [ATLANTICO, BOLIVAR], c);
    assert [GUAJIRA] + [ATLANTICO, BOLIVAR] == FallbackTable();
  }

  const SORTED_CATEGORIES := ["Potencial eólico", "Proyectos instalados", "Velocidad del viento"]
  const SORTED_DEPARTMENTS := ["Atlántico", "Bolívar", "La Guajira"]

  lemma FallbackColumns()
    ensures ColumnValues(FallbackTable(), Category) == ["Velocidad del viento", "Potencial eólico", "Proyectos instalados"]
    ensures ColumnValues(FallbackTable(), Department) == ["La Guajira", "Atlántico", "Bolívar"]
  {
  }

  /** With three categories, the sidebar preselects all of them. */
  lemma FallbackDefaultCategories()
    ensures DefaultCategories(FallbackTable()) == SORTED_CATEGORIES
  {
    FallbackColumns();
    SortedFallbackCategories();
    FirstSortedAll(ColumnValues(FallbackTable(), Category), DEFAULT_CATEGORY_COUNT, SORTED_CATEGORIES);
  }

  /** With three departments, the sidebar preselects all of them. */
  lemma FallbackDefaultDepartments()
    ensures DefaultDepartments(FallbackTable()) == SORTED_DEPARTMENTS
  {
    FallbackColumns();
    SortedFallbackDepartments();
    FirstSortedAll(ColumnValues(FallbackTable(), Department), DEFAULT_DEPARTMENT_COUNT, SORTED_DEPARTMENTS);
  }

  /** The overview chart on the fallback: one bar per category, in sorted
      order, each the category's single value. */
  lemma FallbackCategoryMeans()
    ensures MeansByCategory(FallbackTable()) ==
              [KeyMean("Potencial eólico", 150.0), KeyMean("Proyectos instalados", 5.0),
               KeyMean("Velocidad del viento", 7.5)]
  {
    FallbackCategoryKeys();
    FallbackSingletonGroups();
    SingletonGroupMeans(FallbackTable(), SORTED_CATEGORIES, CATEGORY_VALUES);
    assert seq(3, i requires 0 <= i < 3 => KeyMean(SORTED_CATEGORIES[i], CATEGORY_VALUES[i])) ==
             [KeyMean("Potencial eólico", 150.0), KeyMean("Proyectos instalados", 5.0),
              KeyMean("Velocidad del viento", 7.5)];
  }

  const CATEGORY_VALUES: seq<real> := [150.0, 5.0, 7.5]

  lemma FallbackSingletonGroups()
    ensures forall i :: 0 <= i < |SORTED_CATEGORIES| ==>
              ValuesOf(FallbackTable(), Category, SORTED_CATEGORIES[i]) == [CATEGORY_VALUES[i]]
  {
    forall i | 0 <= i < |SORTED_CATEGORIES|
      ensures ValuesOf(FallbackTable(), Category, SORTED_CATEGORIES[i]) == [CATEGORY_VALUES[i]]
    {
      FallbackCategoryGroups();
      if i == 0 {
        assert SORTED_CATEGORIES[0] == "Potencial eólico";
      } else if i == 1 {
        assert SORTED_CATEGORIES[1] == "Proyectos instalados";
      } else {
        assert SORTED_CATEGORIES[2] == "Velocidad del viento";
      }
    }
  }

  /** When every category's group holds a single value, the overview pairs
      each sorted category with that value. */
  lemma SingletonGroupMeans(d: Table, ks: seq<string>, vals: seq<real>)
    requires ks == SortedDistinct(ColumnValues(d, Category))
    requires |vals| == |ks|
    requires forall i :: 0 <= i < |ks| ==> ValuesOf(d, Category, ks[i]) == [vals[i]]
    ensures MeansByCategory(d) == seq(|ks|, i requires 0 <= i < |ks| => KeyMean(ks[i], vals[i]))
  {
    var g := MeansByCategory(d);
    assert g == MeansFor(d, Category, ks);
    forall i | 0 <= i < |ks| ensures g[i] == KeyMean(ks[i], vals[i]) {
      MeanOfConstant([vals[i]], vals[i]);
    }
  }

  lemma FallbackCategoryKeys()
    ensures SortedDistinct(ColumnValues(FallbackTable(), Category)) == SORTED_CATEGORIES
  {
    FallbackColumns();
    SortedFallbackCategories();
    SortedUnique(SortedDistinct(ColumnValues(FallbackTable(), Category)), SORTED_CATEGORIES);
  }

  /** Each fallback category has a single row, hence a single value. */
  lemma FallbackCategoryGroups()
    ensures ValuesOf(FallbackTable(), Category, "Potencial eólico") == [150.0]
    ensures ValuesOf(FallbackTable(), Category, "Proyectos instalados") == [5.0]
    ensures ValuesOf(FallbackTable(), Category, "Velocidad del viento") == [7.5]
  {
    var d := FallbackTable();
    assert d[1..][1..][1..] == [];
  }

  /** The comparison tab on the fallback compares its first two categories
      in row order, whose slices share no department, so the join is empty
      and no coefficient is shown. */
  lemma FallbackNoOverlap()
    ensures DefaultComparison(FallbackTable()) == Compare("Velocidad del viento", "Potencial eólico")
    ensures JoinCategories(FallbackTable(), "Velocidad del viento", "Potencial eólico") == []
  {
    var d := FallbackTable();
    var c := DefaultComparison(d);
    assert d[1].category != d[0].category;
    var k :| FirstOtherCategory(d, k) && d[k].category == c.second;
    assert k == 1;
    forall a, b ensures !Comparable(d, "Velocidad del viento", "Potencial eólico", a, b) {
    }
    JoinEmpty(d, "Velocidad del viento", "Potencial eólico");
  }
}
