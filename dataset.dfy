/** The table every page of the dashboard reads: one record per row of the
    wind-energy CSV, with the five columns the pipeline uses. */
module Dataset {

  datatype Option<T> = None | Some(value: T)

  /** One CSV row: `Departamento`, `Categoría`, `Valor`, `Latitud`,
      `Longitud`. Values are exact reals, so means carry no rounding. */
  datatype Record = Record(department: string, category: string, value: real, lat: real, lon: real)

  type Table = seq<Record>

  /** The two text columns the pipeline groups and filters by. */
  datatype Column = Department | Category

  function Key(r: Record, col: Column): string
  {
    match col
    case Department => r.department
    case Category => r.category
  }

  /** The column `df[col]` as a list, row for row. */
  function ColumnValues(d: Table, col: Column): (ks: seq<string>)
    ensures |ks| == |d|
    ensures forall i :: 0 <= i < |d| ==> ks[i] == Key(d[i], col)
  {
    if d == [] then [] else [Key(d[0], col)] + ColumnValues(d[1..], col)
  }

  /** Some row of `d` has `k` in column `col`. */
  predicate Occurs(d: Table, col: Column, k: string)
  {
    exists r :: r in d && Key(r, col) == k
  }

  lemma InColumn(d: Table, col: Column, k: string)
    ensures k in ColumnValues(d, col) <==> Occurs(d, col, k)
  {
    var ks := ColumnValues(d, col);
    if k in ks {
      var i :| 0 <= i < |ks| && ks[i] == k;
      assert d[i] in d;
    }
    if Occurs(d, col, k) {
      var r :| r in d && Key(r, col) == k;
      var i :| 0 <= i < |d| && d[i] == r;
      assert ks[i] == k;
    }
  }

  /** Concatenation regroups freely; proofs about row-by-row operations use
      it to move a leading part across. */
  lemma AppendAssociative<T>(x: seq<T>, y: seq<T>, z: seq<T>)
    ensures x + (y + z) == (x + y) + z
  {
  }

  /** The sample table `load_data` returns when the CSV cannot be read. */
  function FallbackTable(): (d: Table)
    ensures |d| == 3
    ensures forall i, j :: 0 <= i < j < |d| ==>
              d[i].department != d[j].department && d[i].category != d[j].category
    ensures forall i :: 0 <= i < |d| ==> d[i].department != "" && d[i].category != ""
  {
    [ Record("La Guajira", "Velocidad del viento", 7.5, 11.5, -72.9),
      Record("Atlántico", "Potencial eólico", 150.0, 10.9, -74.8),
      Record("Bolívar", "Proyectos instalados", 5.0, 10.4, -75.5) ]
  }
}
