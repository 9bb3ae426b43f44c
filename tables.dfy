/** Tables: the slice of the pandas data model that the dashboard and the
    ingestion pipeline rely on. A table is a set of column names and a
    sequence of rows; every row maps exactly the table's columns to values
    (a cell the source leaves empty holds `Missing`, pandas' NaN). */
module Tables {

  /** A cell value as decoded from the API's JSON or read back from CSV. */
  datatype Value = Missing | Text(text: string) | Number(number: real)

  /** One record: field name to value. */
  type Record = map<string, Value>

  datatype Frame = Frame(columns: set<string>, rows: seq<Record>)

  /** Every row has exactly the frame's columns. */
  predicate Rectangular(f: Frame) {
    forall i :: 0 <= i < |f.rows| ==> f.rows[i].Keys == f.columns
  }

  type Table = f: Frame | Rectangular(f) witness Frame({}, [])

  // ---------------------------------------------------------------------
  // Building a table from decoded records: pd.DataFrame(list_of_dicts)
  // ---------------------------------------------------------------------

  /** Every field name that occurs in some record. */
  function KeysOf(recs: seq<Record>): (ks: set<string>)
    ensures forall k :: k in ks <==> exists i :: 0 <= i < |recs| && k in recs[i]
  {
    if recs == [] then {}
    else
      var init := recs[..|recs| - 1];
      assert forall i :: 0 <= i < |init| ==> init[i] == recs[i];
      KeysOf(init) + recs[|recs| - 1].Keys
  }

  /** Widen a record to `cols`, filling absent fields with Missing. */
  function Fill(r: Record, cols: set<string>): map<string, Value> {
    map k | k in cols :: if k in r then r[k] else Missing
  }

  /** The columns are the union of the records' fields; each row keeps its
      record's values and holds Missing for the fields its record lacks. */
  function FromRecords(recs: seq<Record>): (t: Table)
    ensures t.columns == KeysOf(recs)
    ensures |t.rows| == |recs|
    ensures forall i, k :: 0 <= i < |recs| && k in recs[i] ==> k in t.rows[i] && t.rows[i][k] == recs[i][k]
    ensures forall i, k :: 0 <= i < |recs| && k in t.columns && k !in recs[i] ==> t.rows[i][k] == Missing
  {
    var cols := KeysOf(recs);
    Frame(cols, seq(|recs|, i requires 0 <= i < |recs| => Fill(recs[i], cols)))
  }

  /** Records of one category share one schema, so the table holds them as
      they are: no filler appears. */
  lemma FromHomogeneousRecords(recs: seq<Record>, schema: set<string>)
    requires |recs| > 0
    requires forall i :: 0 <= i < |recs| ==> recs[i].Keys == schema
    ensures FromRecords(recs).columns == schema
    ensures FromRecords(recs).rows == recs
  {
    var t := FromRecords(recs);
    assert schema == recs[0].Keys;
    forall i | 0 <= i < |recs| ensures t.rows[i] == recs[i] {
      assert t.rows[i].Keys == recs[i].Keys;
    }
  }

  // ---------------------------------------------------------------------
  // Column selection and concatenation
  // ---------------------------------------------------------------------

  /** `df[cols]`: keep only the listed columns. */
  function Project(t: Table, cols: set<string>): (r: Table)
    requires cols <= t.columns
    ensures r.columns == cols && |r.rows| == |t.rows|
    ensures forall i, k :: 0 <= i < |t.rows| && k in cols ==> r.rows[i][k] == t.rows[i][k]
  {
    Frame(cols, seq(|t.rows|, i requires 0 <= i < |t.rows| => map k | k in cols :: t.rows[i][k]))
  }

  /** `pd.concat([a, b], ignore_index=True)` on tables with the same columns. */
  function Concat(a: Table, b: Table): (r: Table)
    requires a.columns == b.columns
    ensures r.columns == a.columns
    ensures r.rows == a.rows + b.rows
  {
    Frame(a.columns, a.rows + b.rows)
  }

  /** `df[c]`: the column as a sequence, one value per row. */
  function Column(t: Table, c: string): (col: seq<Value>)
    requires c in t.columns
    ensures |col| == |t.rows|
    ensures forall i :: 0 <= i < |t.rows| ==> col[i] == t.rows[i][c]
  {
    seq(|t.rows|, i requires 0 <= i < |t.rows| => t.rows[i][c])
  }

  // ---------------------------------------------------------------------
  // Series.unique(): distinct values in order of first occurrence
  // ---------------------------------------------------------------------

  predicate Distinct<T(==)>(s: seq<T>) {
    forall i, j :: 0 <= i < j < |s| ==> s[i] != s[j]
  }

  /** Position of the first occurrence of `v` in `s`. */
  function FirstIndex<T(==)>(s: seq<T>, v: T): (k: nat)
    requires v in s
    ensures k < |s| && s[k] == v && v !in s[..k]
  {
    if s[0] == v then 0
    else
      var k := FirstIndex(s[1..], v);
      assert s[..k + 1] == [s[0]] + s[1..][..k];
      k + 1
  }

  /** pandas' unique: keep each value the first time it is met. */
  function Unique<T(==)>(s: seq<T>): (u: seq<T>)
    ensures Distinct(u)
    ensures forall i :: 0 <= i < |u| ==> u[i] in s
    ensures forall i :: 0 <= i < |s| ==> s[i] in u
    ensures |u| <= |s|
  {
    if s == [] then []
    else
      var init, last := s[..|s| - 1], s[|s| - 1];
      assert s == init + [last];
      var u := Unique(init);
      if last in u then u else u + [last]
  }

  lemma {:induction false} FirstIndexExtend<T>(s: seq<T>, x: T, v: T)
    requires v in s
    ensures FirstIndex(s + [x], v) == FirstIndex(s, v)
  {
    if s[0] != v {
      assert (s + [x])[1..] == s[1..] + [x];
      FirstIndexExtend(s[1..], x, v);
    }
  }

  /** The unique values appear in the order of their first occurrence. */
  lemma {:induction false} UniqueFirstOccurrenceOrder<T>(s: seq<T>)
    ensures forall i, j :: 0 <= i < j < |Unique(s)| ==>
      FirstIndex(s, Unique(s)[i]) < FirstIndex(s, Unique(s)[j])
  {
    if s != [] {
      var init, last := s[..|s| - 1], s[|s| - 1];
      assert s == init + [last];
      UniqueFirstOccurrenceOrder(init);
      var u := Unique(init);
      forall v | v in init ensures FirstIndex(s, v) == FirstIndex(init, v) < |init| {
        FirstIndexExtend(init, last, v);
      }
      if last !in u {
        assert FirstIndex(s, last) == |init| by {
          assert last !in init;
          assert s[|init|] == last && last !in s[..|init|];
        }
      }
    }
  }

  /** The first unique value is the column's first value. */
  lemma UniqueHead<T>(s: seq<T>)
    requires |s| > 0
    ensures |Unique(s)| > 0 && Unique(s)[0] == s[0]
  {
    var u := Unique(s);
    assert s[0] in u;
    UniqueFirstOccurrenceOrder(s);
    var p :| 0 <= p < |u| && u[p] == s[0];
    assert FirstIndex(s, u[p]) == 0;
  }

  /** A prefix of the unique values is made of the values met first: every
      value of `s` outside the prefix first occurs after all of the prefix's
      values, and only when the prefix is not all of the unique values. */
  lemma UniquePrefixFirstSeen<T>(s: seq<T>, n: nat)
    requires n <= |Unique(s)|
    ensures var p := Unique(s)[..n];
      && Distinct(p)
      && (forall i :: 0 <= i < n ==> p[i] in s)
      && (forall i, j :: 0 <= i < j < n ==> FirstIndex(s, p[i]) < FirstIndex(s, p[j]))
      && (forall k :: 0 <= k < |s| && s[k] !in p ==>
            n < |Unique(s)| && forall i :: 0 <= i < n ==> FirstIndex(s, p[i]) < FirstIndex(s, s[k]))
  {
    var u := Unique(s);
    var p := u[..n];
    assert forall i :: 0 <= i < n ==> p[i] == u[i];
    UniqueFirstOccurrenceOrder(s);
    assert Distinct(p) && forall i :: 0 <= i < n ==> p[i] in s;
    forall k | 0 <= k < |s| && s[k] !in p
      ensures n < |u| && forall i :: 0 <= i < n ==> FirstIndex(s, p[i]) < FirstIndex(s, s[k])
    {
      assert s[k] in u;
      LeftOutComesLater(s, u, n, k);
    }
  }

  /** A value of `s` missing from the first `n` unique values sits at a
      position of `u` past them. */
  lemma LeftOutComesLater<T>(s: seq<T>, u: seq<T>, n: nat, k: nat)
    requires n <= |u| && k < |s| && s[k] in u && s[k] !in u[..n]
    requires forall i :: 0 <= i < |u| ==> u[i] in s
    requires forall i, j :: 0 <= i < j < |u| ==> FirstIndex(s, u[i]) < FirstIndex(s, u[j])
    ensures n < |u| && forall i :: 0 <= i < n ==> FirstIndex(s, u[..n][i]) < FirstIndex(s, s[k])
  {
    var q :| 0 <= q < |u| && u[q] == s[k];
    assert q >= n by {
      assert forall j :: 0 <= j < n ==> u[..n][j] == u[j];
    }
    forall i | 0 <= i < n ensures FirstIndex(s, u[..n][i]) < FirstIndex(s, s[k]) {
      assert u[..n][i] == u[i];
    }
  }

  // ---------------------------------------------------------------------
  // Series.isin(sel): row filtering
  // ---------------------------------------------------------------------

  /** `a` is obtained from `b` by deleting elements (order kept). */
  predicate Subsequence<T(==)>(a: seq<T>, b: seq<T>) {
    if a == [] then true
    else if b == [] then false
    else
      (a[|a| - 1] == b[|b| - 1] && Subsequence(a[..|a| - 1], b[..|b| - 1]))
      || Subsequence(a, b[..|b| - 1])
  }

  predicate Selected(row: Record, c: string, sel: seq<Value>) {
    c in row && row[c] in sel
  }

  /** The rows whose value in column `c` belongs to `sel`: a subsequence of
      `rows` that holds every selected row as often as `rows` does and no
      other row. */
  function KeepRows(rows: seq<Record>, c: string, sel: seq<Value>): (r: seq<Record>)
    ensures Subsequence(r, rows)
    ensures forall row :: row in r ==> row in rows && Selected(row, c, sel)
    ensures forall row :: Selected(row, c, sel) ==> multiset(r)[row] == multiset(rows)[row]
  {
    if rows == [] then []
    else
      var init, last := rows[..|rows| - 1], rows[|rows| - 1];
      assert rows == init + [last];
      var r := KeepRows(init, c, sel);
      if Selected(last, c, sel) then
        assert (r + [last])[..|r|] == r;
        r + [last]
      else r
  }

  /** `t[t[c].isin(sel)]`. */
  function IsIn(t: Table, c: string, sel: seq<Value>): (r: Table)
    ensures r.columns == t.columns
    ensures r.rows == KeepRows(t.rows, c, sel)
  {
    var kept := KeepRows(t.rows, c, sel);
    assert forall i :: 0 <= i < |kept| ==> kept[i] in t.rows;
    Frame(t.columns, kept)
  }

  lemma {:induction false} SubsequenceOfItself<T>(s: seq<T>)
    ensures Subsequence(s, s)
  {
    if s != [] {
      SubsequenceOfItself(s[..|s| - 1]);
    }
  }

  /** The filter step both dashboard pages apply: when a column is chosen
      (a non-empty name) and the selection is not empty, the rows whose value
      in that column is selected, in their original order; otherwise every
      row, unchanged. */
  function SelectRows(t: Table, c: string, sel: seq<Value>): (r: Table)
    ensures r.columns == t.columns
    ensures Subsequence(r.rows, t.rows)
    ensures c == "" || sel == [] ==> r == t
    ensures c != "" && sel != [] ==> forall row :: row in r.rows ==> Selected(row, c, sel)
    ensures c != "" && sel != [] ==>
      forall row :: Selected(row, c, sel) ==> multiset(r.rows)[row] == multiset(t.rows)[row]
  {
    if c != "" && sel != [] then IsIn(t, c, sel)
    else
      SubsequenceOfItself(t.rows);
      t
  }

  // ---------------------------------------------------------------------
  // DataFrame.head(n)
  // ---------------------------------------------------------------------

  function Min(a: int, b: int): int {
    if a <= b then a else b
  }

  /** The first `n` rows, or all of them when there are fewer. */
  function Head(t: Table, n: nat): (r: Table)
    ensures r.columns == t.columns
    ensures |r.rows| == Min(n, |t.rows|)
    ensures forall i :: 0 <= i < |r.rows| ==> r.rows[i] == t.rows[i]
  {
    Frame(t.columns, t.rows[..Min(n, |t.rows|)])
  }

  // ---------------------------------------------------------------------
  // Series.value_counts(): occurrences per distinct value
  // ---------------------------------------------------------------------

  /** Pair each value of `u` with its multiplicity in `ms`. */
  function Pairs<T(==)>(u: seq<T>, ms: multiset<T>): (r: seq<(T, nat)>)
    ensures |r| == |u|
    ensures forall i :: 0 <= i < |u| ==> r[i] == (u[i], ms[u[i]])
  {
    if u == [] then [] else Pairs(u[..|u| - 1], ms) + [(u[|u| - 1], ms[u[|u| - 1]])]
  }

  /** The cells of `col` that are not missing, in order (pandas' `dropna`). */
  function DropMissing(col: seq<Value>): (p: seq<Value>)
    ensures Missing !in p
    ensures forall v :: v != Missing ==> multiset(p)[v] == multiset(col)[v]
    ensures multiset(p)[Missing] == 0
    ensures |p| == |col| - multiset(col)[Missing]
  {
    if col == [] then []
    else
      var init, last := col[..|col| - 1], col[|col| - 1];
      assert col == init + [last];
      DropMissing(init) + if last == Missing then [] else [last]
  }

  /** `v` is one of the values listed in `r`. */
  predicate Lists<T(==)>(r: seq<(T, nat)>, v: T) {
    exists i :: 0 <= i < |r| && r[i].0 == v
  }

  /** Each distinct value of `col` with its number of occurrences. */
  function ValueCounts<T(==)>(col: seq<T>): (r: seq<(T, nat)>)
    ensures forall i :: 0 <= i < |r| ==> r[i].0 in col && r[i].1 > 0
    ensures forall k :: 0 <= k < |col| ==> Lists(r, col[k])
    ensures forall i, j :: 0 <= i < j < |r| ==> r[i].0 != r[j].0
    ensures forall i :: 0 <= i < |r| ==> r[i].1 == multiset(col)[r[i].0]
  {
    var u := Unique(col);
    var r := Pairs(u, multiset(col));
    CountsCoverColumn(col, u, r);
    r
  }

  lemma CountsCoverColumn<T>(col: seq<T>, u: seq<T>, r: seq<(T, nat)>)
    requires forall k :: 0 <= k < |col| ==> col[k] in u
    requires |r| == |u| && forall i :: 0 <= i < |u| ==> r[i].0 == u[i]
    ensures forall k :: 0 <= k < |col| ==> Lists(r, col[k])
  {
    forall k | 0 <= k < |col| ensures Lists(r, col[k]) {
      var i :| 0 <= i < |u| && u[i] == col[k];
      assert r[i].0 == col[k];
    }
  }

  /** `value_counts()` with its default `dropna=True`: each distinct value
      of `col` that is not missing, with its number of occurrences. */
  function PresentValueCounts(col: seq<Value>): (r: seq<(Value, nat)>)
    ensures forall i, j :: 0 <= i < j < |r| ==> r[i].0 != r[j].0
    ensures forall i :: 0 <= i < |r| ==> r[i].0 != Missing
    ensures forall i :: 0 <= i < |r| ==> r[i].1 == multiset(col)[r[i].0] > 0
    ensures forall k :: 0 <= k < |col| && col[k] != Missing ==> Lists(r, col[k])
  {
    var present := DropMissing(col);
    var r := ValueCounts(present);
    forall k | 0 <= k < |col| && col[k] != Missing ensures Lists(r, col[k]) {
      assert multiset(present)[col[k]] == multiset(col)[col[k]] > 0;
      var j := IndexOf(present, col[k]);
    }
    r
  }

  /** A position at which `v` occurs in `s`. */
  lemma IndexOf<T>(s: seq<T>, v: T) returns (j: nat)
    requires v in s
    ensures j < |s| && s[j] == v
  {
    j :| 0 <= j < |s| && s[j] == v;
  }

  /** The counts of the present values sum to the number of cells that are
      not missing. */
  lemma PresentValueCountsTotal(col: seq<Value>)
    ensures Total(PresentValueCounts(col)) == |col| - multiset(col)[Missing]
  {
    ValueCountsTotal(DropMissing(col));
  }

  /** Sum of the counts. */
  function Total<T>(r: seq<(T, nat)>): nat {
    if r == [] then 0 else Total(r[..|r| - 1]) + r[|r| - 1].1
  }

  lemma {:induction false} TotalPairsAdd<T>(u: seq<T>, ms: multiset<T>, x: T)
    requires Distinct(u)
    ensures Total(Pairs(u, ms + multiset{x})) == Total(Pairs(u, ms)) + (if x in u then 1 else 0)
  {
    if u != [] {
      var init := u[..|u| - 1];
      assert u == init + [u[|u| - 1]];
      TotalPairsAdd(init, ms, x);
      assert Pairs(u, ms + multiset{x})[..|init|] == Pairs(init, ms + multiset{x});
      assert Pairs(u, ms)[..|init|] == Pairs(init, ms);
    }
  }

  /** The counts add up to the number of values counted. */
  lemma {:induction false} ValueCountsTotal<T>(col: seq<T>)
    ensures Total(ValueCounts(col)) == |col|
  {
    if col != [] {
      var init, last := col[..|col| - 1], col[|col| - 1];
      assert col == init + [last];
      assert multiset(col) == multiset(init) + multiset{last};
      ValueCountsTotal(init);
      var u := Unique(init);
      TotalPairsAdd(u, multiset(init), last);
      if last !in u {
        var p := Pairs(u + [last], multiset(col));
        assert p[..|u|] == Pairs(u, multiset(col));
        assert multiset(col)[last] == 1 by {
          assert last !in init;
        }
      }
    }
  }
}
