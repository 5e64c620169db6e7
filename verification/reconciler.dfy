/** Reconciling the student records into one table (`save_to_excel`, pdf_extractor.py:253-356):
    every record gets every column, the duplicate-column rename pass runs over the column
    names, the columns are put in their output order, each record becomes a row, and rows that
    repeat an earlier row's PRN are dropped. */
module Reconciler {
  import Seqs
  import opened Text
  import LexOrder
  import opened Records
  import Columns

  // ---------------------------------------------------------------- the union of the keys

  /** `all_keys`: the union of the records' keys, so exactly the column names some record has. */
  function AllKeys(records: seq<Record>): (keys: set<string>)
    ensures forall i, k | 0 <= i < |records| && k in records[i] :: k in keys
    ensures forall k | k in keys :: SomeRecordHas(records, k)
  {
    set i, k | 0 <= i < |records| && k in records[i] :: k
  }

  /** Some record has column `k`. */
  predicate SomeRecordHas(records: seq<Record>, k: string)
  {
    exists i | 0 <= i < |records| :: k in records[i]
  }

  // ---------------------------------------------------------------- filling the gaps

  /** One record with every missing key of `keys` set to `None`. */
  function Fill(r: Record, keys: set<string>): (filled: Record)
    ensures filled.Keys == r.Keys + keys
    ensures forall k | k in r :: filled[k] == r[k]
    ensures forall k | k in keys && k !in r :: filled[k] == Null
  {
    map k | k in r.Keys + keys :: if k in r then r[k] else Null
  }

  /** The fill loop over all records. */
  function FillAll(records: seq<Record>, keys: set<string>): (filled: seq<Record>)
    ensures |filled| == |records|
    ensures forall i | 0 <= i < |records| :: filled[i] == Fill(records[i], keys)
  {
    Seqs.Map(records, (r: Record) => Fill(r, keys))
  }

  /** Filling keeps every value a record had, gives every added key `None`, and leaves all records
      with exactly the same keys. */
  lemma FillCorrect(records: seq<Record>)
    ensures var keys := AllKeys(records);
            var filled := FillAll(records, keys);
            (forall i | 0 <= i < |filled| :: filled[i].Keys == keys)
            && (forall i, k | 0 <= i < |records| && k in records[i] :: k in filled[i] && filled[i][k] == records[i][k])
            && (forall i, k | 0 <= i < |records| && k in keys && k !in records[i] :: k in filled[i] && filled[i][k] == Null)
  {
  }

  /** Filling again with the same keys changes nothing. */
  lemma FillIdempotent(r: Record, keys: set<string>)
    ensures Fill(Fill(r, keys), keys) == Fill(r, keys)
  {
    var once := Fill(r, keys);
    assert Fill(once, keys).Keys == once.Keys;
  }

  // ---------------------------------------------------------------- the duplicate-column rename pass

  /** The state of the rename loop: the records, `seen_columns` and `column_counts`. */
  datatype RenameState = RenameState(records: seq<Record>, seen: set<string>, counts: map<string, nat>)

  /** Copies the value under `col` to `newCol` in one record that has `col`, removing `col` when
      `drop` holds. */
  function MoveKey(r: Record, col: string, newCol: string, drop: bool): Record
  {
    if col in r then (if drop then r[newCol := r[col]] - {col} else r[newCol := r[col]]) else r
  }

  /** One iteration over a column name: a name seen before is counted (starting from 1, so the
      first repeat is number 2) and moved to `<name>_<count>` in every record; a new name is
      only remembered. */
  function RenameStep(st: RenameState, col: string): (next: RenameState)
    ensures |next.records| == |st.records|
    ensures col in st.seen ==> next.seen == st.seen
    ensures col !in st.seen ==> next == st.(seen := st.seen + {col})
  {
    if col in st.seen then
      var count: nat := (if col in st.counts then st.counts[col] else 1) + 1;
      var newCol := col + "_" + NatToString(count);
      st.(records := Seqs.Map(st.records, (r: Record) => MoveKey(r, col, newCol, count > 1)),
          counts := st.counts[col := count])
    else
      st.(seen := st.seen + {col})
  }

  /** The rename loop over a column list. */
  function RenameLoop(st: RenameState, cols: seq<string>): (r: RenameState)
    ensures |r.records| == |st.records|
    decreases |cols|
  {
    if cols == [] then st else RenameLoop(RenameStep(st, cols[0]), cols[1..])
  }

  /** The loop as the source starts it: nothing seen, nothing counted. */
  function Renamed(records: seq<Record>, cols: seq<string>): (renamed: seq<Record>)
    ensures |renamed| == |records|
  {
    RenameLoop(RenameState(records, {}, map[]), cols).records
  }

  /** Over column names that never repeat — and the list the source walks is built from a set, so
      its names never repeat — the rename loop changes no record. */
  lemma {:induction false} RenameLoopNoOp(st: RenameState, cols: seq<string>)
    requires Seqs.Distinct(cols)
    requires forall c | c in cols :: c !in st.seen
    ensures RenameLoop(st, cols).records == st.records
    decreases |cols|
  {
    if cols != [] {
      var next := RenameStep(st, cols[0]);
      assert next.records == st.records;
      forall c | c in cols[1..] ensures c !in next.seen {
        var k :| 0 <= k < |cols[1..]| && cols[1..][k] == c;
        assert cols[k + 1] == c && cols[0] != cols[k + 1];
      }
      assert Seqs.Distinct(cols[1..]) by {
        forall i, j | 0 <= i < j < |cols[1..]| ensures cols[1..][i] != cols[1..][j] {
          assert cols[1..][i] == cols[i + 1] && cols[1..][j] == cols[j + 1];
        }
      }
      RenameLoopNoOp(next, cols[1..]);
    }
  }

  /** The source's rename pass leaves the records as they were. */
  lemma RenamedIsIdentity(records: seq<Record>, cols: seq<string>)
    requires Seqs.Distinct(cols)
    ensures Renamed(records, cols) == records
  {
    RenameLoopNoOp(RenameState(records, {}, map[]), cols);
  }

  /** Had a column name repeated, the pass would not keep the first occurrence under its own name,
      as the comment beside it says: the second sight of `c` moves every value under `c` to
      `c_2` and deletes `c`. */
  lemma RepeatedNameMoved(records: seq<Record>, c: string)
    ensures var rs := Renamed(records, [c, c]);
            |rs| == |records|
            && forall i | 0 <= i < |records| ::
                 c !in rs[i] && (c in records[i] ==> c + "_2" in rs[i] && rs[i][c + "_2"] == records[i][c])
  {
    var st0 := RenameState(records, {}, map[]);
    var st1 := RenameStep(st0, c);
    assert st1.records == records && c in st1.seen && c !in st1.counts;
    assert NatToString(2) == "2";
    var st2 := RenameStep(st1, c);
    assert RenameLoop(st0, [c, c]) == RenameLoop(st1, [c]) == RenameLoop(st2, []);
    var newCol := c + "_2";
    assert newCol != c by {
      assert |newCol| == |c| + 2;
    }
    assert c + "_" + NatToString(2) == newCol;
    forall i | 0 <= i < |records| ensures st2.records[i] == MoveKey(records[i], c, newCol, true) {
    }
  }

  // ---------------------------------------------------------------- rows and the table

  /** A record as a table row: its values in column order. */
  function Row(r: Record, columns: seq<string>): (row: seq<Value>)
    ensures |row| == |columns|
    ensures forall k | 0 <= k < |columns| && columns[k] in r :: row[k] == r[columns[k]]
  {
    Seqs.Map(columns, (c: string) => if c in r then r[c] else Null)
  }

  /** The PRN cell of a row whose first column is PRN. */
  function PrnCell(row: seq<Value>): Value
  {
    if row == [] then Null else row[0]
  }

  datatype Table = Table(columns: seq<string>, rows: seq<seq<Value>>)

  /** What `save_to_excel` ends with: nothing to save (it returns `None`), a `KeyError` from
      `drop_duplicates` when no record has a PRN, or the table it writes. */
  datatype Outcome = NoData | MissingPrn | Saved(table: Table)

  /** `enumeration` lists the column names once each, as the data frame's columns do; which order
      pandas picks does not matter (`SaveTableIgnoresEnumeration`). */
  predicate Enumerates(enumeration: seq<string>, keys: set<string>)
  {
    Seqs.Distinct(enumeration)
    && (forall c | c in enumeration :: c in keys)
    && (forall c | c in keys :: c in enumeration)
  }

  /** The table `save_to_excel` writes for `records`. */
  function SaveTable(records: seq<Record>, enumeration: seq<string>): (o: Outcome)
    requires Enumerates(enumeration, AllKeys(records))
    ensures o.NoData? <==> records == []
    ensures o.MissingPrn? <==> records != [] && !SomeRecordHas(records, "PRN")
    ensures o.Saved? ==> o.table == BuildTable(records, enumeration)
  {
    if records == [] then NoData
    else if "PRN" !in AllKeys(records) then MissingPrn
    else Saved(BuildTable(records, enumeration))
  }

  /** The fill, the rename pass, the reordering and `drop_duplicates(subset=["PRN"])`. */
  function BuildTable(records: seq<Record>, enumeration: seq<string>): (t: Table)
    ensures forall c | c in t.columns :: c in enumeration
    ensures |t.rows| <= |records|
    ensures forall k | 0 <= k < |t.rows| :: |t.rows[k]| == |t.columns|
    ensures Seqs.KeysDistinct(t.rows, PrnCell)
  {
    var renamed := Renamed(FillAll(records, AllKeys(records)), enumeration);
    var columns := Columns.FinalColumns(enumeration);
    var rows := Seqs.Map(renamed, (r: Record) => Row(r, columns));
    KeptWidth(rows, |columns|);
    Table(columns, Seqs.DedupBy(rows, PrnCell))
  }

  /** Deduplication keeps rows of the width all rows had, with pairwise different PRN cells. */
  lemma KeptWidth(rows: seq<seq<Value>>, width: nat)
    requires forall k | 0 <= k < |rows| :: |rows[k]| == width
    ensures forall k | 0 <= k < |Seqs.DedupBy(rows, PrnCell)| :: |Seqs.DedupBy(rows, PrnCell)[k]| == width
    ensures Seqs.KeysDistinct(Seqs.DedupBy(rows, PrnCell), PrnCell)
  {
    var kept := Seqs.DedupBy(rows, PrnCell);
    Seqs.DedupFromSound(rows, PrnCell, {});
    assert forall k | 0 <= k < |kept| :: kept[k] in rows;
  }

  // ---------------------------------------------------------------- properties of the table

  /** When some record has a PRN, the PRN column leads the output columns. */
  lemma PrnLeads(enumeration: seq<string>)
    requires "PRN" in enumeration
    ensures var columns := Columns.FinalColumns(enumeration);
            |columns| > 0 && columns[0] == "PRN"
  {
    Columns.FinalLayout(enumeration);
    IdentityColumnsNamed();
    var present := Columns.PresentIn(enumeration);
    Seqs.FilterUnfold(BaseColumns, present);
    assert Seqs.Filter(BaseColumns, present) == ["PRN"] + Seqs.Filter(BaseColumns[1..], present);
  }

  /** The three outcomes: nothing is saved exactly when there are no records; the PRN lookup fails
      exactly when records exist but none has a PRN. */
  lemma OutcomeCases(records: seq<Record>, enumeration: seq<string>)
    requires Enumerates(enumeration, AllKeys(records))
    ensures SaveTable(records, enumeration).NoData? <==> records == []
    ensures SaveTable(records, enumeration).MissingPrn?
            <==> records != [] && forall i | 0 <= i < |records| :: "PRN" !in records[i]
  {
    var keys := AllKeys(records);
    assert "PRN" in keys <==> exists i | 0 <= i < |records| :: "PRN" in records[i];
  }

  /** The rows of the filled records, before duplicates are dropped. */
  function RecordRows(records: seq<Record>, keys: set<string>, columns: seq<string>): (rows: seq<seq<Value>>)
    ensures |rows| == |records|
    ensures forall i | 0 <= i < |records| :: rows[i] == RecordRow(records[i], keys, columns)
  {
    Seqs.Map(records, (r: Record) => RecordRow(r, keys, columns))
  }

  /** The saved table is the reordered columns and the deduplicated rows of the filled records. */
  lemma SavedLayout(records: seq<Record>, enumeration: seq<string>)
    requires Enumerates(enumeration, AllKeys(records))
    requires SaveTable(records, enumeration).Saved?
    ensures var columns := Columns.FinalColumns(enumeration);
            SaveTable(records, enumeration).table
            == Table(columns, Seqs.DedupBy(RecordRows(records, AllKeys(records), columns), PrnCell))
    ensures var columns := Columns.FinalColumns(enumeration);
            |columns| > 0 && columns[0] == "PRN"
  {
    var keys := AllKeys(records);
    var columns := Columns.FinalColumns(enumeration);
    RenamedIsIdentity(FillAll(records, keys), enumeration);
    PrnLeads(enumeration);
    FilledRows(records, keys, columns);
  }

  /** The rows of the filled records are the record rows. */
  lemma FilledRows(records: seq<Record>, keys: set<string>, columns: seq<string>)
    ensures Seqs.Map(FillAll(records, keys), (r: Record) => Row(r, columns)) == RecordRows(records, keys, columns)
  {
    var rows := Seqs.Map(FillAll(records, keys), (r: Record) => Row(r, columns));
    var expected := RecordRows(records, keys, columns);
    assert |rows| == |expected|;
    forall i | 0 <= i < |rows| ensures rows[i] == expected[i] {
    }
  }

  /** The PRN cell of every row is its record's PRN. */
  lemma RowsPrns(records: seq<Record>, keys: set<string>, columns: seq<string>)
    requires "PRN" in keys && |columns| > 0 && columns[0] == "PRN"
    ensures var rows := RecordRows(records, keys, columns);
            forall i | 0 <= i < |rows| :: |rows[i]| == |columns| && PrnCell(rows[i]) == PrnOf(records[i])
  {
    var rows := RecordRows(records, keys, columns);
    forall i | 0 <= i < |rows| ensures |rows[i]| == |columns| && PrnCell(rows[i]) == PrnOf(records[i]) {
      RowPrn(records[i], keys, columns);
    }
  }

  /** The kept rows have one cell per column and pairwise different PRN cells. */
  lemma KeptRowsShape(records: seq<Record>, keys: set<string>, columns: seq<string>)
    requires "PRN" in keys && |columns| > 0 && columns[0] == "PRN"
    ensures var kept := Seqs.DedupBy(RecordRows(records, keys, columns), PrnCell);
            (forall j | 0 <= j < |kept| :: |kept[j]| == |columns|)
            && (forall j, l | 0 <= j < l < |kept| :: kept[j][0] != kept[l][0])
  {
    var rows := RecordRows(records, keys, columns);
    var kept := Seqs.DedupBy(rows, PrnCell);
    Seqs.DedupByCorrect(rows, PrnCell);
    RowsPrns(records, keys, columns);
    forall j | 0 <= j < |kept| ensures |kept[j]| == |columns| {
      assert kept[j] in kept;
      var i :| 0 <= i < |rows| && rows[i] == kept[j] && Seqs.FirstWithKey(rows, PrnCell, i);
    }
    forall j, l | 0 <= j < l < |kept| ensures kept[j][0] != kept[l][0] {
      assert PrnCell(kept[j]) != PrnCell(kept[l]);
    }
  }

  /** Each kept row is the row of the first record with its PRN. */
  lemma KeptRowsFirst(records: seq<Record>, keys: set<string>, columns: seq<string>)
    requires "PRN" in keys && |columns| > 0 && columns[0] == "PRN"
    ensures var kept := Seqs.DedupBy(RecordRows(records, keys, columns), PrnCell);
            forall j | 0 <= j < |kept| :: RowOfFirstRecord(records, keys, columns, kept[j])
  {
    var rows := RecordRows(records, keys, columns);
    var kept := Seqs.DedupBy(rows, PrnCell);
    var ix := Seqs.FirstIndices(rows, PrnCell, 0);
    Seqs.DedupByPositions(rows, PrnCell);
    FirstRowsFirstPrns(records, keys, columns);
    forall j | 0 <= j < |kept| ensures RowOfFirstRecord(records, keys, columns, kept[j]) {
      var i := ix[j];
      assert FirstPrn(records, i) && kept[j] == RecordRow(records[i], keys, columns);
    }
  }

  /** Every record's PRN has a kept row. */
  lemma KeptRowsCover(records: seq<Record>, keys: set<string>, columns: seq<string>)
    requires "PRN" in keys && |columns| > 0 && columns[0] == "PRN"
    ensures var kept := Seqs.DedupBy(RecordRows(records, keys, columns), PrnCell);
            forall i | 0 <= i < |records| :: exists j | 0 <= j < |kept| :: PrnCell(kept[j]) == PrnOf(records[i])
  {
    var rows := RecordRows(records, keys, columns);
    var kept := Seqs.DedupBy(rows, PrnCell);
    Seqs.DedupByCorrect(rows, PrnCell);
    RowsPrns(records, keys, columns);
    forall i | 0 <= i < |records| ensures exists j | 0 <= j < |kept| :: PrnCell(kept[j]) == PrnOf(records[i]) {
      assert rows[i] in rows;
      var y :| y in kept && PrnCell(y) == PrnCell(rows[i]);
      var j :| 0 <= j < |kept| && kept[j] == y;
    }
  }

  /** The saved table's columns are the reordered columns, led by PRN; every row has one cell per
      column, and no two rows share a PRN. */
  lemma SavedShape(records: seq<Record>, enumeration: seq<string>)
    requires Enumerates(enumeration, AllKeys(records))
    requires SaveTable(records, enumeration).Saved?
    ensures var t := SaveTable(records, enumeration).table;
            t.columns == Columns.FinalColumns(enumeration)
            && |t.columns| > 0 && t.columns[0] == "PRN"
            && (forall j | 0 <= j < |t.rows| :: |t.rows[j]| == |t.columns|)
            && (forall j, l | 0 <= j < l < |t.rows| :: t.rows[j][0] != t.rows[l][0])
  {
    SavedLayout(records, enumeration);
    KeptRowsShape(records, AllKeys(records), Columns.FinalColumns(enumeration));
  }

  /** Each saved row is the row of the first record with its PRN: every value that record had,
      and `None` for the columns it lacked. */
  lemma SavedRowsFirst(records: seq<Record>, enumeration: seq<string>)
    requires Enumerates(enumeration, AllKeys(records))
    requires SaveTable(records, enumeration).Saved?
    ensures var t := SaveTable(records, enumeration).table;
            forall j | 0 <= j < |t.rows| :: RowOfFirstRecord(records, AllKeys(records), t.columns, t.rows[j])
  {
    SavedLayout(records, enumeration);
    KeptRowsFirst(records, AllKeys(records), Columns.FinalColumns(enumeration));
  }

  /** No record's PRN is lost: some saved row carries it. */
  lemma SavedRowsCover(records: seq<Record>, enumeration: seq<string>)
    requires Enumerates(enumeration, AllKeys(records))
    requires SaveTable(records, enumeration).Saved?
    ensures var t := SaveTable(records, enumeration).table;
            forall i | 0 <= i < |records| :: exists j | 0 <= j < |t.rows| :: PrnCell(t.rows[j]) == PrnOf(records[i])
  {
    SavedLayout(records, enumeration);
    KeptRowsCover(records, AllKeys(records), Columns.FinalColumns(enumeration));
  }

  /** Every saved row carries the PRN of some record. */
  lemma SavedRowsPrns(records: seq<Record>, enumeration: seq<string>)
    requires Enumerates(enumeration, AllKeys(records))
    requires SaveTable(records, enumeration).Saved?
    ensures var t := SaveTable(records, enumeration).table;
            forall j | 0 <= j < |t.rows| :: exists i | 0 <= i < |records| :: PrnCell(t.rows[j]) == PrnOf(records[i])
  {
    var keys := AllKeys(records);
    var t := SaveTable(records, enumeration).table;
    SavedShape(records, enumeration);
    SavedRowsFirst(records, enumeration);
    forall j | 0 <= j < |t.rows| ensures exists i | 0 <= i < |records| :: PrnCell(t.rows[j]) == PrnOf(records[i]) {
      assert RowOfFirstRecord(records, keys, t.columns, t.rows[j]);
      var i :| 0 <= i < |records| && FirstPrn(records, i) && t.rows[j] == RecordRow(records[i], keys, t.columns);
      RowPrn(records[i], keys, t.columns);
    }
  }

  /** The saved rows keep the order of the records: they are the rows of the records at strictly
      increasing positions, each position holding the first record with its PRN, and every such
      position is used. */
  lemma SavedRowsOrdered(records: seq<Record>, enumeration: seq<string>)
    requires Enumerates(enumeration, AllKeys(records))
    requires SaveTable(records, enumeration).Saved?
    ensures var t := SaveTable(records, enumeration).table;
            var ix := FirstPrnIndices(records, AllKeys(records), t.columns);
            && |t.rows| == |ix|
            && (forall k | 0 <= k < |ix| :: ix[k] < |records| && FirstPrn(records, ix[k]))
            && (forall k | 0 <= k < |ix| :: t.rows[k] == RecordRow(records[ix[k]], AllKeys(records), t.columns))
            && (forall k, l | 0 <= k < l < |ix| :: ix[k] < ix[l])
            && (forall i | 0 <= i < |records| && FirstPrn(records, i) :: i in ix)
  {
    var keys := AllKeys(records);
    var columns := Columns.FinalColumns(enumeration);
    SavedLayout(records, enumeration);
    KeptRowsOrdered(records, keys, columns);
  }

  /** The positions of the records that are the first with their PRN, through their rows. */
  function FirstPrnIndices(records: seq<Record>, keys: set<string>, columns: seq<string>): seq<nat>
  {
    Seqs.FirstIndices(RecordRows(records, keys, columns), PrnCell, 0)
  }

  /** `KeptRowsFirst` with the order: the kept rows are the rows of the first records with each
      PRN, in record order. */
  lemma KeptRowsOrdered(records: seq<Record>, keys: set<string>, columns: seq<string>)
    requires "PRN" in keys && |columns| > 0 && columns[0] == "PRN"
    ensures var kept := Seqs.DedupBy(RecordRows(records, keys, columns), PrnCell);
            var ix := FirstPrnIndices(records, keys, columns);
            && |kept| == |ix|
            && (forall k | 0 <= k < |ix| :: ix[k] < |records| && FirstPrn(records, ix[k]))
            && (forall k | 0 <= k < |ix| :: kept[k] == RecordRow(records[ix[k]], keys, columns))
            && (forall k, l | 0 <= k < l < |ix| :: ix[k] < ix[l])
            && (forall i | 0 <= i < |records| && FirstPrn(records, i) :: i in ix)
  {
    var rows := RecordRows(records, keys, columns);
    Seqs.DedupByPositions(rows, PrnCell);
    FirstRowsFirstPrns(records, keys, columns);
  }

  /** A row is the first with its PRN cell exactly when its record is the first with its PRN. */
  lemma FirstRowsFirstPrns(records: seq<Record>, keys: set<string>, columns: seq<string>)
    requires "PRN" in keys && |columns| > 0 && columns[0] == "PRN"
    ensures var rows := RecordRows(records, keys, columns);
            forall i | 0 <= i < |records| :: Seqs.FirstWithKey(rows, PrnCell, i) <==> FirstPrn(records, i)
  {
    RowsPrns(records, keys, columns);
  }

  /** A record's PRN cell as the table sees it: its PRN, or `None` when it has none. */
  function PrnOf(r: Record): Value
  {
    if "PRN" in r then r["PRN"] else Null
  }

  /** `row` is the row of the first record with some PRN. */
  predicate RowOfFirstRecord(records: seq<Record>, keys: set<string>, columns: seq<string>, row: seq<Value>)
  {
    exists i | 0 <= i < |records| :: FirstPrn(records, i) && row == RecordRow(records[i], keys, columns)
  }

  /** Record `i` is the first with its PRN. */
  predicate FirstPrn(records: seq<Record>, i: nat)
    requires i < |records|
  {
    forall m | 0 <= m < i :: PrnOf(records[m]) != PrnOf(records[i])
  }

  /** The row of a filled record. */
  function RecordRow(r: Record, keys: set<string>, columns: seq<string>): seq<Value>
  {
    Row(Fill(r, keys), columns)
  }

  /** A row of the table starts with its record's PRN. */
  lemma RowPrn(r: Record, keys: set<string>, columns: seq<string>)
    requires "PRN" in keys && |columns| > 0 && columns[0] == "PRN"
    ensures PrnCell(RecordRow(r, keys, columns)) == PrnOf(r)
  {
  }

  /** Which order pandas gives the columns does not change the table. */
  lemma SaveTableIgnoresEnumeration(records: seq<Record>, e1: seq<string>, e2: seq<string>)
    requires Enumerates(e1, AllKeys(records)) && Enumerates(e2, AllKeys(records))
    ensures SaveTable(records, e1) == SaveTable(records, e2)
  {
    if records != [] {
      var filled := FillAll(records, AllKeys(records));
      RenamedIsIdentity(filled, e1);
      RenamedIsIdentity(filled, e2);
      Columns.OrderIrrelevant(e1, e2);
    }
  }

  /** Saving a table's worth of records twice over gives no new rows: the rows already kept are
      kept again. */
  lemma DedupStable(records: seq<Record>, enumeration: seq<string>)
    requires Enumerates(enumeration, AllKeys(records))
    requires SaveTable(records, enumeration).Saved?
    ensures var t := SaveTable(records, enumeration).table;
            Seqs.DedupBy(t.rows, PrnCell) == t.rows
  {
    var keys := AllKeys(records);
    var columns := Columns.FinalColumns(enumeration);
    RenamedIsIdentity(FillAll(records, keys), enumeration);
    var rows := Seqs.Map(FillAll(records, keys), (r: Record) => Row(r, columns));
    Seqs.DedupByIdempotent(rows, PrnCell);
  }
}
