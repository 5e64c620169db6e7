/** The flat student record shared by extraction and reconciliation: one mapping from column
    name to a cell value, where a cell is a string or the absence marker that the column fill
    writes (Python's `None`). */
module Records {

  datatype Value = Str(s: string) | Null

  type Record = map<string, Value>

  /** The sentinel every subject attribute starts from, and the SGPA default. */
  const NotAvailable: string := "N/A"

  /** The identity columns, in the order they lead every output row. */
  const BaseColumns: seq<string> :=
    ["PRN", "Seat No", "Name", "Mother Name", "Semester", "SGPA", "Credits Earned/Total", "Total Credit Points"]

  /** The nine subject attribute suffixes, in the order a subject line stores them and the order
      a subject group of columns is laid out: continuous assessment, end-semester exam, term work,
      total, credits, earned credits, grade, grade points, credit points. */
  const AttributeSuffixes: seq<string> :=
    ["_CCE", "_ESE", "_TW", "_TOT", "_CRD", "_ERN_CRD", "_GRD", "_GRD_PNT", "_CRD_PNT"]

  /** No identity column name holds an underscore, so none can clash with a subject column. */
  lemma BaseColumnsHaveNoUnderscore()
    ensures forall c | c in BaseColumns :: '_' !in c
  {
  }

  /** The PRN column leads the identity columns; SGPA is one of them. */
  lemma IdentityColumnsNamed()
    ensures BaseColumns[0] == "PRN" && "PRN" in BaseColumns && "SGPA" in BaseColumns
  {
  }
}
