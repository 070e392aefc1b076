/** What the bank summarisers read from `pd.DataFrame(rows)`, and what they
    return. A DataFrame built from records has a column for every key some
    record holds; a record without that key shows NaN in it. */
module Frames {
  import opened Wrappers
  import opened Amounts
  import opened Rows
  import opened Grouping

  const NoTablesMessage: string := "No tables found in PDF"

  /** The "overall_totals" object. */
  datatype Totals = Totals(totalDebited: real, totalCredited: real)

  /** The two shapes of response: the error object when no rows were found,
      or the "upi_summary" records with the "overall_totals". */
  datatype Response =
    | NoTables(error: string)
    | Summary(upiSummary: seq<SummaryItem>, overallTotals: Totals)

  /** The exceptions pandas raises on the way: a column no record has
      (`df["Debit"]`), or a row position past the start (`df.iloc[-4]`). */
  datatype PandasError = KeyError(column: string) | IndexError

  /** `df[col]` exists. */
  predicate HasColumn(rows: seq<Record>, col: string) {
    exists i :: 0 <= i < |rows| && col in rows[i]
  }

  /** One cell of column col: the record's text, or NaN (None). */
  function Cell(r: Record, col: string): Option<string> {
    if col in r then Some(r[col]) else None
  }

  /** `str(x)` of a cell: NaN prints as "nan". */
  function CellText(c: Option<string>): string {
    match c
    case None => "nan"
    case Some(s) => s
  }

  /** One cell of `pd.to_numeric(df[col].astype(str).str.replace(",", ""),
      errors="coerce").fillna(0)`. */
  function Amount(r: Record, col: string): real {
    CleanAmount(CellText(Cell(r, col)))
  }

  /** A record without the column counts 0 ("nan" does not parse). */
  lemma MissingAmount(r: Record, col: string)
    requires col !in r
    ensures Amount(r, col) == 0.0
  {
    CleanUnparseable();
  }

  /** `df[col].sum()` over the cleaned column, summed from the first row. */
  function ColumnTotal(rows: seq<Record>, col: string): real {
    if rows == [] then 0.0 else Amount(rows[0], col) + ColumnTotal(rows[1..], col)
  }

  /** The rows as the aggregation sees them: the identifier found in the
      description text, the two cleaned amounts, and the raw description. */
  function Entries(rows: seq<Record>, debitCol: string, creditCol: string, descCol: string,
                   identify: string -> Option<string>): seq<Entry>
  {
    seq(|rows|, i requires 0 <= i < |rows| =>
      Entry(identify(CellText(Cell(rows[i], descCol))), Amount(rows[i], debitCol),
            Amount(rows[i], creditCol), Cell(rows[i], descCol)))
  }

  lemma {:induction false} ColumnTotalAppend(rows: seq<Record>, r: Record, col: string)
    ensures ColumnTotal(rows + [r], col) == ColumnTotal(rows, col) + Amount(r, col)
  {
    if rows == [] {
      assert [r][1..] == [];
    } else {
      assert (rows + [r])[1..] == rows[1..] + [r];
      ColumnTotalAppend(rows[1..], r, col);
    }
  }

  /** Entries is built row by row: the entries of all rows but the last,
      then the entry of the last. */
  lemma EntriesSnoc(rows: seq<Record>, debitCol: string, creditCol: string, descCol: string,
                    identify: string -> Option<string>)
    requires rows != []
    ensures var es := Entries(rows, debitCol, creditCol, descCol, identify);
      && es[..|es| - 1] == Entries(rows[..|rows| - 1], debitCol, creditCol, descCol, identify)
      && es[|es| - 1].debit == Amount(rows[|rows| - 1], debitCol)
      && es[|es| - 1].credit == Amount(rows[|rows| - 1], creditCol)
  {
  }

  /** The debit and credit sums the aggregation adds up are the column sums
      of the cleaned amount columns. */
  lemma {:induction false} EntriesTotals(rows: seq<Record>, debitCol: string, creditCol: string,
                                        descCol: string, identify: string -> Option<string>)
    ensures SumDebit(Entries(rows, debitCol, creditCol, descCol, identify)) == ColumnTotal(rows, debitCol)
    ensures SumCredit(Entries(rows, debitCol, creditCol, descCol, identify)) == ColumnTotal(rows, creditCol)
  {
    if rows != [] {
      var rows', r := rows[..|rows| - 1], rows[|rows| - 1];
      EntriesSnoc(rows, debitCol, creditCol, descCol, identify);
      EntriesTotals(rows', debitCol, creditCol, descCol, identify);
      assert rows == rows' + [r];
      ColumnTotalAppend(rows', r, debitCol);
      ColumnTotalAppend(rows', r, creditCol);
    }
  }
}
