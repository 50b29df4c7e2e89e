/** The interactive map page: the category chosen for the map, the rows it
    draws, and the radius of each point marker. */
module MapView {
  import opened Ordering
  import opened Dataset
  import opened Filtering

  /** The options of the map's category selectbox: the sorted distinct
      categories of the filtered view. */
  function MapCategoryOptions(view: Table): (opts: seq<string>)
    ensures StrictlySorted(opts)
    ensures forall c :: c in opts <==> Occurs(view, Category, c)
  {
    var opts := SortedDistinct(ColumnValues(view, Category));
    forall c ensures c in opts <==> Occurs(view, Category, c) {
      InColumn(view, Category, c);
    }
    opts
  }

  /** What the selectbox holds before the user picks: its first option, or
      nothing (`None`) when it has no options. */
  function DefaultMapCategory(view: Table): (c: Option<string>)
    ensures c.None? <==> view == []
    ensures c.Some? ==> Occurs(view, Category, c.value)
    ensures c.Some? ==> forall r :: r in view ==> r.category == c.value || Less(c.value, r.category)
  {
    var opts := MapCategoryOptions(view);
    assert view != [] ==> opts != [] by {
      if view != [] {
        assert view[0] in view;
        assert Occurs(view, Category, view[0].category);
      }
    }
    if opts == [] then None
    else
      assert forall r :: r in view ==> r.category == opts[0] || Less(opts[0], r.category) by {
        forall r | r in view ensures r.category == opts[0] || Less(opts[0], r.category) {
          assert Occurs(view, Category, r.category);
        }
      }
      Some(opts[0])
  }

  /** `map_df`: the view's rows of the chosen category. With no category
      chosen, the comparison against `None` matches no row. */
  function MapRows(view: Table, choice: Option<string>): (m: Table)
    ensures IsSubsequence(m, view)
    ensures choice.None? ==> m == []
    ensures choice.Some? ==> forall r :: r in m <==> r in view && r.category == choice.value
  {
    match choice
    case None =>
      SelectNothing(view, ByCategory([]));
      SelectKeepsOrder(view, ByCategory([]));
      Select(view, ByCategory([]))
    case Some(c) => CategorySlice(view, c)
  }

  /** The map shows something by default exactly when the view is not
      empty. */
  lemma DefaultMapShowsRows(view: Table)
    ensures MapRows(view, DefaultMapCategory(view)) != [] <==> view != []
  {
    var c := DefaultMapCategory(view);
    if view != [] {
      var r :| r in view && r.category == c.value;
      assert r in MapRows(view, c);
    }
  }

  const MIN_RADIUS: real := 5.0
  const MAX_RADIUS: real := 15.0
  const VALUE_PER_RADIUS: real := 5.0

  function Max(a: real, b: real): real { if a >= b then a else b }
  function Min(a: real, b: real): real { if a <= b then a else b }

  /** `min(max(value / 5, 5), 15)`: the radius of a point marker. */
  function MarkerRadius(value: real): (r: real)
    ensures MIN_RADIUS <= r <= MAX_RADIUS
    ensures MIN_RADIUS <= value / VALUE_PER_RADIUS <= MAX_RADIUS ==> r == value / VALUE_PER_RADIUS
    ensures value / VALUE_PER_RADIUS < MIN_RADIUS ==> r == MIN_RADIUS
    ensures value / VALUE_PER_RADIUS > MAX_RADIUS ==> r == MAX_RADIUS
  {
    Min(Max(value / VALUE_PER_RADIUS, MIN_RADIUS), MAX_RADIUS)
  }

  /** A larger value never gets a smaller marker. */
  lemma MarkerRadiusMonotone(a: real, b: real)
    requires a <= b
    ensures MarkerRadius(a) <= MarkerRadius(b)
  {
    assert a / VALUE_PER_RADIUS <= b / VALUE_PER_RADIUS;
  }
}
