/** The "Données" and geographic pages of models/donnees.py: the filter on
    one column, the data behind the charts and the map. */
module Donnees {
  import opened Optional
  import opened Tables

  const DefaultFilterColumn := "Etiquette_DPE"

  /** The selectbox's preselected column: the energy label column, or None
      when the table lacks it (`list.index` raises ValueError then). */
  function DefaultFilter(t: Table): (c: Option<string>)
    ensures c.Some? <==> DefaultFilterColumn in t.columns
    ensures c.Some? ==> c.value == DefaultFilterColumn && c.value in t.columns
  {
    if DefaultFilterColumn in t.columns then Some(DefaultFilterColumn) else None
  }

  /** The multiselect's default, `[unique_values[0]]`: the filter column's
      value in the first row, or None on an empty table (where indexing the
      unique values raises IndexError). */
  function DefaultSelection(t: Table, c: string): (sel: Option<seq<Value>>)
    requires c in t.columns
    ensures sel.Some? <==> |t.rows| > 0
    ensures sel.Some? ==> sel.value == [t.rows[0][c]]
  {
    var u := Unique(Column(t, c));
    if |t.rows| == 0 then None
    else
      UniqueHead(Column(t, c));
      Some([u[0]])
  }

  /** With the default selection the filtered table keeps exactly the rows
      sharing the first row's value, first among them the first row itself. */
  lemma DefaultSelectionKeepsFirstRow(t: Table, c: string)
    requires c in t.columns && c != "" && |t.rows| > 0
    ensures var filtered := SelectRows(t, c, DefaultSelection(t, c).value);
      && |filtered.rows| > 0
      && filtered.rows[0] == t.rows[0]
      && forall row :: row in filtered.rows ==> row[c] == t.rows[0][c]
  {
    var sel := DefaultSelection(t, c).value;
    var filtered := SelectRows(t, c, sel);
    assert Selected(t.rows[0], c, sel);
    assert filtered.rows == KeepRows(t.rows, c, sel);
    KeepRowsFirst(t.rows, c, sel);
  }

  /** When the first row is selected, filtering keeps it in front. */
  lemma {:induction false} KeepRowsFirst(rows: seq<Record>, c: string, sel: seq<Value>)
    requires |rows| > 0 && Selected(rows[0], c, sel)
    ensures |KeepRows(rows, c, sel)| > 0 && KeepRows(rows, c, sel)[0] == rows[0]
  {
    if |rows| > 1 {
      var init := rows[..|rows| - 1];
      assert init[0] == rows[0];
      KeepRowsFirst(init, c, sel);
    }
  }

  /** `filtered_data[c].value_counts()`: the values of the filter column
      among the filtered rows, each with the number of filtered rows holding
      it. Missing cells (NaN) are not counted, as `value_counts` drops them
      by default. These pairs feed the pie, bar, line and histogram charts. */
  function ChartData(t: Table, c: string, sel: seq<Value>): (counts: seq<(Value, nat)>)
    requires c in t.columns
    ensures forall i, j :: 0 <= i < j < |counts| ==> counts[i].0 != counts[j].0
    ensures forall i :: 0 <= i < |counts| ==> counts[i].0 != Missing
    ensures forall i :: 0 <= i < |counts| ==>
      counts[i].1 == multiset(Column(SelectRows(t, c, sel), c))[counts[i].0] > 0
    ensures forall row :: row in SelectRows(t, c, sel).rows && row[c] != Missing ==> Lists(counts, row[c])
  {
    var filtered := SelectRows(t, c, sel);
    var col := Column(filtered, c);
    var counts := PresentValueCounts(col);
    forall row | row in filtered.rows && row[c] != Missing ensures Lists(counts, row[c]) {
      var k :| 0 <= k < |filtered.rows| && filtered.rows[k] == row;
      assert col[k] == row[c];
    }
    counts
  }

  /** The chart slices add up to the number of filtered rows whose value is
      not missing. */
  lemma ChartDataTotal(t: Table, c: string, sel: seq<Value>)
    requires c in t.columns
    ensures var col := Column(SelectRows(t, c, sel), c);
      Total(ChartData(t, c, sel)) == |col| - multiset(col)[Missing]
  {
    PresentValueCountsTotal(Column(SelectRows(t, c, sel), c));
  }

  /** `visualisation_geographique`: the map of the `lat`/`lon` columns when
      both exist, otherwise None (the page shows an error instead). */
  function GeoPoints(t: Table): (points: Option<Table>)
    ensures points.Some? <==> "lat" in t.columns && "lon" in t.columns
    ensures points.Some? ==>
      && points.value.columns == {"lat", "lon"}
      && |points.value.rows| == |t.rows|
      && forall i :: 0 <= i < |t.rows| ==>
           points.value.rows[i]["lat"] == t.rows[i]["lat"] && points.value.rows[i]["lon"] == t.rows[i]["lon"]
  {
    if "lat" in t.columns && "lon" in t.columns then Some(Project(t, {"lat", "lon"})) else None
  }
}
