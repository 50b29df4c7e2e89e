# Wind-energy dashboard: the data pipeline behind the pages

The dashboard (`streamlit_app.py`) loads a table of Colombian wind-energy
records. Each record has a department, a category, a value, a latitude and a
longitude. The dashboard has four pages; the home, analysis and map pages
show values computed from the table by a small pure pipeline, and this
project models that pipeline and proves what each step computes:

- the sidebar's default selections: the first three sorted categories and
  the first five sorted departments;
- the global filter, which picks one of four masks depending on which
  selections are empty, and no mask on pages without filters;
- the single-category slices used by the comparison tab and the map;
- the mean value per category, and per department sorted from the largest
  mean down;
- the department-by-category pivot of means, with absent cells filled
  with 0;
- the inner join of two category slices on the department;
- the clamp that turns a value into a map marker radius;
- the sample table the loader falls back to.

The model is written as functions over sequences, with lemmas, in seven
modules:

- `Ordering`: Python's string order, `sorted(set(...))` and the "first n"
  preselection.
- `Dataset`: the record, the table, its columns and the fallback table.
- `Filtering`: the defaults, the mask policy, the view and the slices.
- `Aggregation`: group means, the descending sort and the pivot.
- `Correlation`: the comparison tab's default pair and the merge.
- `MapView`: the map's category choice, its rows and the marker radius.
- `Scenarios`: the whole pipeline evaluated on the fallback table.

Values are exact reals, so means carry no rounding. Python compares
strings by code point. The model's `Less` is that lexicographic order on
`seq<char>`, and it is proved to be a strict total order.

Two pandas behaviours fix the order of results:

- `groupby` returns its keys in ascending order. The category means are
  stated in that order, and so are the pivot's rows and columns.
- `sort_values(ascending=False)` uses a sort that is not stable. The
  department means are therefore stated as non-increasing by mean, and the
  order among equal means is left open. The code decides this; no stable
  tie-break on the department name is promised.

## Model

| member | source | states |
|---|---|---|
| `Ordering.LessTransitive` | streamlit_app.py:80 | Python's code-point string comparison is transitive |
| `Ordering.LessTotal` | streamlit_app.py:80 | any two different strings are ordered one way or the other |
| `Ordering.LessIrreflexive` | streamlit_app.py:80 | no string precedes itself |
| `Ordering.Insert` | streamlit_app.py:80 | inserting into a strictly ascending list keeps it strictly ascending, and adds exactly the new value |
| `Ordering.SortedDistinct` | streamlit_app.py:80 | `sorted(col.unique())` is strictly ascending and holds exactly the column's values |
| `Ordering.SortedUnique` | streamlit_app.py:87 | two strictly ascending lists with the same elements are equal, so the sorted distinct values are determined by the set of values |
| `Ordering.FirstSorted` | streamlit_app.py:84 | the preselection is strictly ascending, has at most n values, all from the column, and leaves a value out only when it already holds n values that all precede it |
| `Ordering.FirstSortedAll` | streamlit_app.py:84 | with at most n distinct values the preselection is all of them, in ascending order |
| `Dataset.ColumnValues` | streamlit_app.py:80 | the column read row by row: same length as the table, entry i is row i's key |
| `Dataset.InColumn` | streamlit_app.py:80 | a string is in the column exactly when some row carries it |
| `Dataset.FallbackTable` | streamlit_app.py:53-59 | the fallback has three rows, with pairwise different departments and categories, none empty |
| `Filtering.DefaultCategories` | streamlit_app.py:80-85 | the default categories are the first three sorted distinct categories, or all of them when there are at most three |
| `Filtering.DefaultDepartments` | streamlit_app.py:87-91 | the default departments are the first five sorted distinct departments, or all of them when there are at most five |
| `Filtering.Select` | streamlit_app.py:96-105 | a boolean mask keeps exactly the rows it matches; the all-true mask keeps the table unchanged |
| `Filtering.SelectKeepsOrder` | streamlit_app.py:96-105 | the masked view is an order-preserving subsequence of the table |
| `Filtering.SelectAppend` | streamlit_app.py:96-103 | masking a concatenation masks each part, so the view is fixed row by row, duplicates included |
| `Filtering.SelectCons` | streamlit_app.py:96-103 | the mask decides the first row on its own |
| `Filtering.SelectSingleton` | streamlit_app.py:96-103 | a one-row table is kept or dropped whole |
| `Filtering.SelectNothing` | streamlit_app.py:96-103 | a mask that no row matches gives the empty view |
| `Filtering.GlobalFilter` | streamlit_app.py:95-107 | the view is a subsequence of the table; with both selections a row is kept iff its category and its department are selected; with only one selection, by that column alone; with neither, or on a page without filters, the view is the whole table; an empty table gives an empty view |
| `Filtering.HeaderOnlyCsvLeavesViewUnbound` | streamlit_app.py:74-107 | as written, a view is bound only for a non-empty table, so for an empty table both filtered pages find no view, while the intended view is empty |
| `Filtering.CategorySlice` | streamlit_app.py:267-268 | `view[view.category == cat]` keeps, in order, exactly the view's rows of that category |
| `Aggregation.MeanBetween` | streamlit_app.py:172 | a mean lies between any lower and upper bound of the values it averages |
| `Aggregation.MeanOfConstant` | streamlit_app.py:172 | the mean of equal values is that value |
| `Aggregation.SumBetween` | streamlit_app.py:172 | n values bounded by lo and hi sum to between n*lo and n*hi |
| `Aggregation.ValuesOf` | streamlit_app.py:172 | a group's values are non-empty exactly when the key occurs in the column |
| `Aggregation.ValuesOfAppend` | streamlit_app.py:172 | the group of a concatenation is the group of each part, in order: grouping works row by row, so every row of the key contributes its value exactly once, in table order |
| `Aggregation.ValuesOfSingleton` | streamlit_app.py:172 | one row contributes its value to its own key's group and to no other |
| `Aggregation.ValuesOfFromRows` | streamlit_app.py:172 | every value in a group is the value of some row with that key |
| `Aggregation.GroupMeans` | streamlit_app.py:172 | `groupby(col).mean()` has keys strictly ascending, one entry exactly for each key that occurs, each the mean of its group |
| `Aggregation.MeansByCategory` | streamlit_app.py:172 | the overview's category means: ascending categories, one per category present, each its group mean |
| `Aggregation.GroupMeanBounds` | streamlit_app.py:172 | every group mean lies within any bounds on the table's values |
| `Aggregation.InsertByMean` | streamlit_app.py:216 | inserting into a non-increasing list keeps it non-increasing and yields exactly the old entries plus the new one, each as often as before |
| `Aggregation.ConsKeepsNonIncreasing` | streamlit_app.py:216 | an entry whose mean is at least every mean of a non-increasing list can be put in front of it |
| `Aggregation.InsertByMeanKeepsKeysDistinct` | streamlit_app.py:216 | inserting an entry with a new key keeps the keys distinct |
| `Aggregation.ConsKeepsKeysDistinct` | streamlit_app.py:216 | an entry with a new key can be put in front of a list with distinct keys |
| `Aggregation.SortByMeanDescending` | streamlit_app.py:216 | `sort_values(ascending=False)` gives a non-increasing permutation of the entries, with keys still distinct |
| `Aggregation.SameEntriesSameGroups` | streamlit_app.py:216 | reordering a grouped-mean series keeps one entry per key and each entry its group mean |
| `Aggregation.MeansByDepartment` | streamlit_app.py:216 | the department chart has non-increasing means, distinct departments, one entry exactly for each department in the view, each its group mean |
| `Aggregation.PairValues` | streamlit_app.py:240-244 | a (department, category) cell has values exactly when some row has that pair |
| `Aggregation.PivotMeans` | streamlit_app.py:240-245 | rows are the view's distinct departments ascending, columns its distinct categories ascending; a present pair's cell is the mean of its values and an absent pair's cell is 0 |
| `Aggregation.PairValuesAppend` | streamlit_app.py:240-244 | the cell of a concatenation is the cell of each part, in order: every row of the pair contributes its value exactly once |
| `Aggregation.PairValuesSingleton` | streamlit_app.py:240-244 | one row contributes its value to its own (department, category) cell and to no other |
| `Aggregation.PairValuesFromRows` | streamlit_app.py:240-244 | every value in a cell comes from a row of that department and category |
| `Aggregation.PivotCellBounds` | streamlit_app.py:240-245 | a present pair's cell lies within any bounds on the values, so only absence yields a filled 0 outside them |
| `Correlation.Unique` | streamlit_app.py:262 | `unique()` has no duplicates, the same elements as the column, and starts with the first row's value |
| `Correlation.UniqueSecond` | streamlit_app.py:262-265 | the second distinct value is found at the first row that differs from row 0, and every earlier row equals row 0 |
| `Correlation.DefaultComparison` | streamlit_app.py:261-265 | the tab shows nothing exactly when the view is empty (line 261); it shows the notice exactly when the view is non-empty and all its rows share one category (line 293); otherwise cat1 is row 0's category and cat2 the category of the first row that differs |
| `Correlation.JoinRow` | streamlit_app.py:271-275 | the joined rows for one left row are exactly its pairings with right rows of the same department |
| `Correlation.Merge` | streamlit_app.py:271-275 | every merged row pairs a left row and a right row with the same department, and every such pair appears |
| `Correlation.JoinRowAppend` | streamlit_app.py:271-275 | the joined rows of one left row are built right row by right row: the joins of two parts of the right slice, one after the other |
| `Correlation.JoinRowSingleton` | streamlit_app.py:271-275 | one right row contributes exactly one joined row when its department matches and none otherwise, so each pairing appears once |
| `Correlation.MergeAppend` | streamlit_app.py:271-275 | the merge is built left row by left row: the merges of two parts of the left slice, one after the other |
| `Correlation.MergeSingleton` | streamlit_app.py:271-275 | a single left row merges into exactly its own joined rows |
| `Correlation.MergeEmpty` | streamlit_app.py:277 | the merge is empty exactly when no left row and right row share a department |
| `Correlation.JoinCategories` | streamlit_app.py:267-275 | the comparison's merged rows are exactly the pairs of a cat1 row and a cat2 row of the view from the same department |
| `Correlation.JoinEmpty` | streamlit_app.py:277 | nothing is plotted exactly when no department of the view has a row of each category |
| `Correlation.JoinSwap` | streamlit_app.py:271-275 | swapping the two categories swaps the two values of each joined pair |
| `MapView.MapCategoryOptions` | streamlit_app.py:310 | the map's options are the view's categories, strictly ascending |
| `MapView.DefaultMapCategory` | streamlit_app.py:308-310 | the map selectbox holds nothing exactly when the view is empty, and otherwise the smallest category of the view |
| `MapView.MapRows` | streamlit_app.py:312 | the map draws, in order, exactly the view's rows of the chosen category, and nothing when no category is chosen |
| `MapView.DefaultMapShowsRows` | streamlit_app.py:308-312 | by default the map draws some row exactly when the view is non-empty |
| `MapView.MarkerRadius` | streamlit_app.py:328 | the radius lies in [5, 15], equals value/5 when that is in range, and is 5 below and 15 above |
| `MapView.MarkerRadiusMonotone` | streamlit_app.py:328 | a larger value never gets a smaller marker |
| `Scenarios.FallbackRows` | streamlit_app.py:53-59 | the fallback rows, named |
| `Scenarios.SortedFallbackCategories` | streamlit_app.py:80 | the fallback's categories in code-point order |
| `Scenarios.SortedFallbackDepartments` | streamlit_app.py:87 | the fallback's departments in code-point order |
| `Scenarios.FallbackColumns` | streamlit_app.py:53-59 | the fallback's category and department columns in row order |
| `Scenarios.FallbackCategoryFilter` | streamlit_app.py:100-101 | on the fallback, selecting only "Potencial eólico" leaves just the Atlántico row |
| `Scenarios.FallbackDefaultCategories` | streamlit_app.py:80-85 | on the fallback all three categories are preselected, in sorted order |
| `Scenarios.FallbackDefaultDepartments` | streamlit_app.py:87-91 | on the fallback all three departments are preselected, in sorted order |
| `Scenarios.FallbackCategoryKeys` | streamlit_app.py:172 | the fallback's grouping keys are its three categories, sorted |
| `Scenarios.FallbackCategoryGroups` | streamlit_app.py:172 | each fallback category has a single value |
| `Scenarios.FallbackSingletonGroups` | streamlit_app.py:172 | the sorted categories' groups are 150, 5 and 7.5, in that order |
| `Scenarios.SingletonGroupMeans` | streamlit_app.py:172 | when every group holds a single value, the category means are those values in category order |
| `Scenarios.FallbackCategoryMeans` | streamlit_app.py:172 | the fallback's overview is Potencial eólico 150, Proyectos instalados 5, Velocidad del viento 7.5 |
| `Scenarios.FallbackNoOverlap` | streamlit_app.py:262-277 | on the fallback, the comparison tab preselects Velocidad del viento and Potencial eólico; they share no department, so the merge is empty and no coefficient is shown |

## Left out

- `app.py` is not part of this model. It only lays out a page and displays the head of a table.
- Reading the CSV, the `@st.cache_data` memoisation and the error message are left out, because they are I/O and framework caching. Only the fallback table's contents are modelled.
- The widgets, navigation, CSS, metric cards and every plotly chart or folium map are left out, because they are rendering through foreign libraries. The heat-map and cluster layers, and the marker loop except its radius formula, go with them.
- `describe().round(2)` (sample deviation, quantiles, rounding), the Pearson coefficient and the OLS trendline are left out. They are floating-point numerics done by pandas, numpy and statsmodels.
- Missing values are not modelled. Every record has a value, whereas pandas would skip NaN in means and in the pivot.
- The guards that check whether a column exists, and the map's branch for a table without a category column, are left out. Every record has all five columns.
- Latitude and longitude are carried but not validated, as in the source.
- `Aggregation.MeansByDepartment`: the order among departments with equal means is not stated, because pandas' default descending sort is not stable.
- `Correlation.Merge`: the model orders the merged rows by left row, then by right row; the row order pandas gives for an inner merge is not promised by the dashboard and is not modelled separately.
- `Correlation.JoinCategories`: when both selectboxes hold the same category, pandas renames the two value columns with suffixes and the scatter plot that follows fails. The model only states the joined pairs.
- `Correlation.DefaultComparison`: the user may pick any other pair in the selectboxes. The model states the preselected pair, and `JoinCategories` takes any pair.
- Values are exact reals, so floating-point rounding in the means is not modelled.

## Findings

| source | as written | input that shows it | evidently intended | confidence | as-written member | corrected member |
|---|---|---|---|---|---|---|
| streamlit_app.py:74 | `filtered_df` is bound only inside `if not df.empty:`, yet the analysis page (line 189) and the map page (line 310) read it unconditionally | a CSV holding only its header row loads as an empty table, and opening "Análisis Descriptivo" then raises a NameError | an empty table gives an empty view, and the pages show nothing | not executed | `Filtering.HeaderOnlyCsvLeavesViewUnbound` | `Filtering.GlobalFilter` |
