/** Extraction followed by reconciliation: the records `extract_tables_from_pdf` returns are what
    `save_to_excel` receives (pdf_extractor.py:13-75 and 253-356). */
module Pipeline {
  import opened Records
  import Segmenter
  import Reconciler

  /** Some row's PRN cell is `v`. */
  predicate RowWithPrn(rows: seq<seq<Value>>, v: Value)
  {
    exists j | 0 <= j < |rows| :: Reconciler.PrnCell(rows[j]) == v
  }

  /** `v` is one of the PRNs. */
  predicate KnownPrn(prns: seq<string>, v: Value)
  {
    exists i | 0 <= i < |prns| :: v == Str(prns[i])
  }

  /** What saving records with PRNs `prns` ends with: nothing saved exactly when there are no
      records; otherwise a table whose rows carry exactly the distinct PRNs — every row the PRN
      of some record, every record's PRN some row. */
  predicate SavedWithPrns(out: Reconciler.Outcome, prns: seq<string>)
  {
    && (out.NoData? <==> prns == [])
    && (prns != [] ==> out.Saved?)
    && (out.Saved? ==>
          && (forall j | 0 <= j < |out.table.rows| :: KnownPrn(prns, Reconciler.PrnCell(out.table.rows[j])))
          && (forall i | 0 <= i < |prns| :: RowWithPrn(out.table.rows, Str(prns[i]))))
  }

  /** The PRN cell of each identified record is its PRN. */
  lemma IdentifiedPrns(records: seq<Record>, prns: seq<string>)
    requires Segmenter.AllIdentified(records, prns)
    ensures forall i | 0 <= i < |records| :: Reconciler.PrnOf(records[i]) == Str(prns[i])
  {
    forall i | 0 <= i < |records| ensures Reconciler.PrnOf(records[i]) == Str(prns[i]) {
      assert Segmenter.Identified(records[i], prns[i]);
    }
  }

  /** Rows whose PRN cells are exactly the records' PRN cells carry exactly the records' PRNs. */
  lemma RowsMatchPrns(records: seq<Record>, prns: seq<string>, rows: seq<seq<Value>>)
    requires |records| == |prns|
    requires forall i | 0 <= i < |records| :: Reconciler.PrnOf(records[i]) == Str(prns[i])
    requires forall j | 0 <= j < |rows| :: exists i | 0 <= i < |records| :: Reconciler.PrnCell(rows[j]) == Reconciler.PrnOf(records[i])
    requires forall i | 0 <= i < |records| :: exists j | 0 <= j < |rows| :: Reconciler.PrnCell(rows[j]) == Reconciler.PrnOf(records[i])
    ensures forall j | 0 <= j < |rows| :: KnownPrn(prns, Reconciler.PrnCell(rows[j]))
    ensures forall i | 0 <= i < |prns| :: RowWithPrn(rows, Str(prns[i]))
  {
    forall j | 0 <= j < |rows| ensures KnownPrn(prns, Reconciler.PrnCell(rows[j])) {
      var i :| 0 <= i < |records| && Reconciler.PrnCell(rows[j]) == Reconciler.PrnOf(records[i]);
      assert Reconciler.PrnCell(rows[j]) == Str(prns[i]);
    }
    forall i | 0 <= i < |prns| ensures RowWithPrn(rows, Str(prns[i])) {
      var j :| 0 <= j < |rows| && Reconciler.PrnCell(rows[j]) == Reconciler.PrnOf(records[i]);
    }
  }

  /** The saved rows of identified records carry exactly their distinct PRNs. */
  lemma SavedRowsMatchPrns(records: seq<Record>, prns: seq<string>, enumeration: seq<string>)
    requires Segmenter.AllIdentified(records, prns)
    requires Reconciler.Enumerates(enumeration, Reconciler.AllKeys(records))
    requires Reconciler.SaveTable(records, enumeration).Saved?
    ensures var rows := Reconciler.SaveTable(records, enumeration).table.rows;
            && (forall j | 0 <= j < |rows| :: KnownPrn(prns, Reconciler.PrnCell(rows[j])))
            && (forall i | 0 <= i < |prns| :: RowWithPrn(rows, Str(prns[i])))
  {
    IdentifiedPrns(records, prns);
    Reconciler.SavedRowsPrns(records, enumeration);
    Reconciler.SavedRowsCover(records, enumeration);
    RowsMatchPrns(records, prns, Reconciler.SaveTable(records, enumeration).table.rows);
  }

  /** Records that each carry the identity columns and a known PRN are always saved (when there
      are any), and the saved rows carry exactly the distinct PRNs among them. */
  lemma IdentifiedRecordsSaved(records: seq<Record>, prns: seq<string>, enumeration: seq<string>)
    requires Segmenter.AllIdentified(records, prns)
    requires Reconciler.Enumerates(enumeration, Reconciler.AllKeys(records))
    ensures SavedWithPrns(Reconciler.SaveTable(records, enumeration), prns)
  {
    var out := Reconciler.SaveTable(records, enumeration);
    Reconciler.OutcomeCases(records, enumeration);
    if prns != [] {
      assert Segmenter.Identified(records[0], prns[0]);
    }
    if out.Saved? {
      SavedRowsMatchPrns(records, prns, enumeration);
    }
  }

  /** A document with at least one student header is always saved, and its table has one row per
      distinct header PRN: every row carries the PRN of some header and every header's PRN has a
      row. A document without headers saves nothing. */
  lemma DocumentSaved(pages: seq<Segmenter.Page>, search: string -> Segmenter.LabelMatches, enumeration: seq<string>)
    requires Segmenter.WellPlacedPages(pages)
    requires Reconciler.Enumerates(enumeration, Reconciler.AllKeys(Segmenter.ExtractPages(pages, search)))
    ensures SavedWithPrns(Reconciler.SaveTable(Segmenter.ExtractPages(pages, search), enumeration), Segmenter.HeaderPrns(pages))
  {
    Segmenter.EveryRecordIdentified(pages, search);
    IdentifiedRecordsSaved(Segmenter.ExtractPages(pages, search), Segmenter.HeaderPrns(pages), enumeration);
  }
}
