/** The "Données" page of models/contexte.py: the dashboard's filter, default
    selection and row limit, and the two ingestion buttons that collect the
    existing-dwelling and new-dwelling datasets and merge them. */
module Contexte {
  import opened Optional
  import opened Tables
  import opened AdemeApi

  // ---------------------------------------------------------------------
  // Merging the two categories
  // ---------------------------------------------------------------------

  /** Keep the columns both tables have, then stack the existing-dwelling
      rows above the new-dwelling rows. */
  function Merge(existing: Table, newBuilds: Table): (merged: Table)
    ensures merged.columns == existing.columns * newBuilds.columns
    ensures |merged.rows| == |existing.rows| + |newBuilds.rows|
    ensures forall i, c :: 0 <= i < |existing.rows| && c in merged.columns ==>
      merged.rows[i][c] == existing.rows[i][c]
    ensures forall i, c :: 0 <= i < |newBuilds.rows| && c in merged.columns ==>
      merged.rows[|existing.rows| + i][c] == newBuilds.rows[i][c]
  {
    var common := existing.columns * newBuilds.columns;
    Concat(Project(existing, common), Project(newBuilds, common))
  }

  /** When both categories share one schema, nothing is dropped: the merge
      is the plain concatenation of the rows. */
  lemma MergeSameSchema(existing: Table, newBuilds: Table)
    requires existing.columns == newBuilds.columns
    ensures Merge(existing, newBuilds).rows == existing.rows + newBuilds.rows
  {
    var merged, n := Merge(existing, newBuilds), |existing.rows|;
    forall i | 0 <= i < |merged.rows| ensures merged.rows[i] == (existing.rows + newBuilds.rows)[i] {
      if i < n {
        assert merged.rows[i].Keys == existing.rows[i].Keys;
      } else {
        assert merged.rows[i].Keys == newBuilds.rows[i - n].Keys;
      }
    }
  }

  // ---------------------------------------------------------------------
  // The two ingestion buttons
  // ---------------------------------------------------------------------

  /** The records one building category yields for a mode. */
  function CategoryRecords(server: Server, e: Endpoint, m: Mode, postalColumn: seq<int>): seq<Record>
    requires AllWellFormed(Answers(server, Requests(e, m, PartitionKeys(postalColumn))))
  {
    Collected(Answers(server, Requests(e, m, PartitionKeys(postalColumn))))
  }

  function CategoryNotices(server: Server, e: Endpoint, m: Mode, postalColumn: seq<int>): seq<Notice> {
    Notices(PartitionKeys(postalColumn), Answers(server, Requests(e, m, PartitionKeys(postalColumn))), m)
  }

  /** The six columns the refresh button previews. */
  const PreviewColumns: set<string> := {
    "Date_réception_DPE", "Etiquette_DPE", "Code_postal_(BAN)",
    "Etiquette_GES", "Conso_5_usages/m²_é_finale", "Surface_habitable_logement"
  }

  /** The refresh preview `t[PreviewColumns].sample(5)` succeeds: selecting a
      missing column raises KeyError, and sampling 5 rows without replacement
      from fewer raises ValueError. */
  predicate Previewable(t: Table) {
    PreviewColumns <= t.columns && |t.rows| >= 5
  }

  /** "Lancer l'appel API" (FullLoad) and "Rafraichir les données" (Refresh):
      collect the existing dwellings, then the new dwellings, merge them and
      write a table. `stored` is the table the refresh button reads from the
      previously written file; the refresh path writes that table, not the
      one it has just merged. The refresh path previews each collected table
      right after collecting it and stops there when the preview raises:
      `merged` and `written` are then None, and a failing existing-dwelling
      preview means the new dwellings are never collected. */
  method Ingest(server: Server, m: Mode, postalColumn: seq<int>, stored: Table)
    returns (merged: Option<Table>, written: Option<Table>, notices: seq<Notice>)
    requires forall i :: 0 <= i < |postalColumn| ==>
      WellFormed(server(FirstRequest(ExistingDwellings, m, postalColumn[i])))
    requires forall i :: 0 <= i < |postalColumn| ==>
      WellFormed(server(FirstRequest(NewDwellings, m, postalColumn[i])))
    ensures AllWellFormed(Answers(server, Requests(ExistingDwellings, m, PartitionKeys(postalColumn))))
    ensures AllWellFormed(Answers(server, Requests(NewDwellings, m, PartitionKeys(postalColumn))))
    ensures var existing := FromRecords(CategoryRecords(server, ExistingDwellings, m, postalColumn));
      var newBuilds := FromRecords(CategoryRecords(server, NewDwellings, m, postalColumn));
      && (merged.Some? <==> m == FullLoad || (Previewable(existing) && Previewable(newBuilds)))
      && (merged.Some? ==> merged.value == Merge(existing, newBuilds))
      && notices == CategoryNotices(server, ExistingDwellings, m, postalColumn) +
           (if m == Refresh && !Previewable(existing) then []
            else CategoryNotices(server, NewDwellings, m, postalColumn))
    ensures merged.Some? ==>
      && merged.value.columns ==
           KeysOf(CategoryRecords(server, ExistingDwellings, m, postalColumn)) *
           KeysOf(CategoryRecords(server, NewDwellings, m, postalColumn))
      && |merged.value.rows| ==
           |CategoryRecords(server, ExistingDwellings, m, postalColumn)| +
           |CategoryRecords(server, NewDwellings, m, postalColumn)|
    ensures written == if merged.None? then None else if m == FullLoad then merged else Some(stored)
  {
    AnswersWellFormed(server, NewDwellings, m, postalColumn);
    var existingRecords, existingNotices, existingCalls := Collect(server, ExistingDwellings, m, postalColumn);
    var existing := FromRecords(existingRecords);
    if m == Refresh && !Previewable(existing) {
      merged, written, notices := None, None, existingNotices;
      return;
    }
    var newRecords, newNotices, newCalls := Collect(server, NewDwellings, m, postalColumn);
    var newBuilds := FromRecords(newRecords);
    notices := existingNotices + newNotices;
    if m == Refresh && !Previewable(newBuilds) {
      merged, written := None, None;
      return;
    }
    var table := Merge(existing, newBuilds);
    merged := Some(table);
    written := if m == FullLoad then merged else Some(stored);
  }

  /** Once both collected tables pass their preview, so does the merged
      refresh table: it keeps the six preview columns and has at least ten
      rows. */
  lemma MergedPreviewable(existing: Table, newBuilds: Table)
    requires Previewable(existing) && Previewable(newBuilds)
    ensures Previewable(Merge(existing, newBuilds))
  {
  }

  // ---------------------------------------------------------------------
  // Dashboard: default selection and number of displayed rows
  // ---------------------------------------------------------------------

  /** `unique_values[:3]`: the multiselect's default. */
  function DefaultSelection(t: Table, c: string): (sel: seq<Value>)
    requires c in t.columns
    ensures |sel| == Min(3, |Unique(Column(t, c))|)
    ensures forall i :: 0 <= i < |sel| ==> sel[i] in Column(t, c)
  {
    var u := Unique(Column(t, c));
    u[..Min(3, |u|)]
  }

  /** The default selection is the first up to three distinct values of the
      column, in order of first occurrence: its values are distinct and occur
      in the column, and any value left out first occurs after all of them
      (so it is only left out when three are already chosen). */
  lemma DefaultSelectionIsFirstSeen(t: Table, c: string)
    requires c in t.columns
    ensures var sel, col := DefaultSelection(t, c), Column(t, c);
      && Distinct(sel)
      && (forall i :: 0 <= i < |sel| ==> sel[i] in col)
      && (forall i, j :: 0 <= i < j < |sel| ==> FirstIndex(col, sel[i]) < FirstIndex(col, sel[j]))
      && (forall k :: 0 <= k < |col| && col[k] !in sel ==>
            |sel| == 3 && forall i :: 0 <= i < |sel| ==> FirstIndex(col, sel[i]) < FirstIndex(col, col[k]))
  {
    var sel, col := DefaultSelection(t, c), Column(t, c);
    UniquePrefixFirstSeen(col, |sel|);
  }

  /** The slider's default, `min(100, max_lines)`: all rows when there are
      at most 100, otherwise 100; always a legal slider value when there is
      at least one row. */
  function DefaultLineCount(count: nat): (n: nat)
    ensures n <= 100 && n <= count
    ensures n == count <==> count <= 100
    ensures count > 100 ==> n == 100
    ensures count >= 1 ==> n >= 1
  {
    Min(100, count)
  }

  /** `filtered_data.head(num_lines)`, where the slider keeps `num_lines`
      between 1 and the number of filtered rows. */
  function Displayed(t: Table, c: string, sel: seq<Value>, numLines: nat): (shown: Table)
    requires 1 <= numLines <= |SelectRows(t, c, sel).rows|
    ensures shown.columns == t.columns && |shown.rows| == numLines
    ensures forall i :: 0 <= i < numLines ==> shown.rows[i] == SelectRows(t, c, sel).rows[i]
    ensures c != "" && sel != [] ==> forall row :: row in shown.rows ==> Selected(row, c, sel)
  {
    Head(SelectRows(t, c, sel), numLines)
  }
}
