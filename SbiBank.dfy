/** `extract_sbi_summary`: SBI statements have Debit, Credit and Details
    columns, carry no summary rows, and so total the amount columns. */
module SbiBank {
  import opened Wrappers
  import opened Rows
  import opened Patterns
  import opened Grouping
  import opened Frames

  /** The rows as the aggregation sees them: identifier from Details, amounts
      from Debit and Credit, the Details cell listed as the transaction. */
  function SbiEntries(rows: seq<Record>): seq<Entry> {
    Entries(rows, "Debit", "Credit", "Details", SbiIdentifier)
  }

  /** Everything after row building. The columns are read in the order the
      source reads them: Debit, Credit, then Details, and the first missing
      one raises. */
  function Summarize(rows: seq<Record>): (r: Result<Response, PandasError>)
    ensures r == Success(NoTables(NoTablesMessage)) <==> rows == []
    ensures r == Failure(KeyError("Debit")) <==> rows != [] && !HasColumn(rows, "Debit")
    ensures r == Failure(KeyError("Credit"))
        <==> rows != [] && HasColumn(rows, "Debit") && !HasColumn(rows, "Credit")
    ensures r == Failure(KeyError("Details"))
        <==> rows != [] && HasColumn(rows, "Debit") && HasColumn(rows, "Credit") && !HasColumn(rows, "Details")
    ensures r.Success? && r.value.Summary?
        <==> rows != [] && HasColumn(rows, "Debit") && HasColumn(rows, "Credit") && HasColumn(rows, "Details")
  {
    if rows == [] then Success(NoTables(NoTablesMessage))
    else if !HasColumn(rows, "Debit") then Failure(KeyError("Debit"))
    else if !HasColumn(rows, "Credit") then Failure(KeyError("Credit"))
    else if !HasColumn(rows, "Details") then Failure(KeyError("Details"))
    else
      var es := SbiEntries(rows);
      Success(Summary(GroupBy(es), Totals(SumDebit(es), SumCredit(es))))
  }

  /** extract_sbi_summary over the tables of the statement's pages. */
  method ExtractSbiSummary(pages: seq<Option<Table>>) returns (r: Result<Response, PandasError>)
    ensures r == Summarize(RowsOf(pages))
  {
    var rows := ExtractRows(pages);
    r := Summarize(rows);
  }

  /** The overall totals are the sums of the cleaned Debit and Credit
      columns over all rows. */
  lemma SummarizeTotals(rows: seq<Record>)
    requires Summarize(rows).Success? && Summarize(rows).value.Summary?
    ensures Summarize(rows).value.overallTotals
         == Totals(ColumnTotal(rows, "Debit"), ColumnTotal(rows, "Credit"))
  {
    EntriesTotals(rows, "Debit", "Credit", "Details", SbiIdentifier);
  }

  /** The overall totals are the groups' totals plus the amounts of the rows
      in which no identifier was found: those rows count in the totals but
      in no group. */
  lemma SummarizeTotalsSplit(rows: seq<Record>)
    requires Summarize(rows).Success? && Summarize(rows).value.Summary?
    ensures var s := Summarize(rows).value;
      && s.overallTotals.totalDebited
         == GroupsDebited(s.upiSummary) + SumDebit(Unidentified(SbiEntries(rows)))
      && s.overallTotals.totalCredited
         == GroupsCredited(s.upiSummary) + SumCredit(Unidentified(SbiEntries(rows)))
  {
    GroupByTotals(SbiEntries(rows));
    SumsPartition(SbiEntries(rows));
  }

  /** The summary has one record per identifier found in some row's
      Details, no identifier twice, in ascending order, and each record sums
      and lists exactly the rows with its identifier. */
  lemma SummarizeGroups(rows: seq<Record>)
    requires Summarize(rows).Success? && Summarize(rows).value.Summary?
    ensures var gs := Summarize(rows).value.upiSummary;
      && SortedByUpi(gs)
      && (forall i, j :: 0 <= i < j < |gs| ==> gs[i].upi != gs[j].upi)
      && (forall i :: 0 <= i < |gs| ==> gs[i] == Reference(SbiEntries(rows), gs[i].upi))
      && forall k :: k in Keys(gs) <==>
           exists i :: 0 <= i < |rows| && SbiIdentifier(CellText(Cell(rows[i], "Details"))) == Some(k)
  {
    var es := SbiEntries(rows);
    GroupBySpec(es);
    GroupByItems(es);
    forall k ensures k in Keys(GroupBy(es)) <==>
        exists i :: 0 <= i < |rows| && SbiIdentifier(CellText(Cell(rows[i], "Details"))) == Some(k)
    {
      IdentifiersSpec(es, k);
      if i :| 0 <= i < |es| && es[i].upi == Some(k) {
        assert SbiIdentifier(CellText(Cell(rows[i], "Details"))) == Some(k);
      }
      if i :| 0 <= i < |rows| && SbiIdentifier(CellText(Cell(rows[i], "Details"))) == Some(k) {
        assert es[i].upi == Some(k);
      }
    }
  }

  /** Every row in which an identifier was found is listed under it. */
  lemma RowGrouped(rows: seq<Record>, i: nat, k: string)
    requires Summarize(rows).Success? && Summarize(rows).value.Summary?
    requires i < |rows| && SbiIdentifier(CellText(Cell(rows[i], "Details"))) == Some(k)
    ensures Lookup(Summarize(rows).value.upiSummary, k) == Some(Reference(SbiEntries(rows), k))
    ensures SbiEntries(rows)[i] in RowsWith(SbiEntries(rows), k)
  {
    EntryGrouped(SbiEntries(rows), i);
  }

  /** The groups list as many Details as there are rows with an identifier. */
  lemma SummarizeCount(rows: seq<Record>)
    requires Summarize(rows).Success? && Summarize(rows).value.Summary?
    ensures TransactionCount(Summarize(rows).value.upiSummary) == |Identified(SbiEntries(rows))|
  {
    GroupByTotals(SbiEntries(rows));
  }
}
