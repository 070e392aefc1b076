/** `extract_upi_summary` for Union Bank statements: Withdrawal, Deposit and
    Particulars columns, and the statement's own summary rows near its end,
    from which the overall totals are read. */
module UnionBank {
  import opened Wrappers
  import opened Rows
  import opened Patterns
  import opened Grouping
  import opened Frames

  /** The rows as the aggregation sees them: identifier from Particulars,
      amounts from Withdrawal and Deposit, the Particulars cell listed as
      the transaction. */
  function UnionEntries(rows: seq<Record>): seq<Entry> {
    Entries(rows, "Withdrawal", "Deposit", "Particulars", UnionIdentifier)
  }

  /** Everything after row building. The steps that can raise come in the
      source's order: the Withdrawal column, the Deposit column, the
      4th-last row, then the Particulars column. The overall debit total is
      the cleaned Withdrawal of the 4th-last row and the overall credit
      total the cleaned Withdrawal (not Deposit) of the 3rd-last row. */
  function Summarize(rows: seq<Record>): (r: Result<Response, PandasError>)
    ensures r == Success(NoTables(NoTablesMessage)) <==> rows == []
    ensures r == Failure(KeyError("Withdrawal")) <==> rows != [] && !HasColumn(rows, "Withdrawal")
    ensures r == Failure(KeyError("Deposit"))
        <==> rows != [] && HasColumn(rows, "Withdrawal") && !HasColumn(rows, "Deposit")
    ensures r == Failure(IndexError)
        <==> 0 < |rows| < 4 && HasColumn(rows, "Withdrawal") && HasColumn(rows, "Deposit")
    ensures r == Failure(KeyError("Particulars"))
        <==> |rows| >= 4 && HasColumn(rows, "Withdrawal") && HasColumn(rows, "Deposit")
             && !HasColumn(rows, "Particulars")
    ensures r.Success? && r.value.Summary?
        <==> |rows| >= 4 && HasColumn(rows, "Withdrawal") && HasColumn(rows, "Deposit")
             && HasColumn(rows, "Particulars")
    ensures r.Success? && r.value.Summary? ==>
      && |rows| >= 4
      && r.value.overallTotals == Totals(Amount(rows[|rows| - 4], "Withdrawal"),
                                         Amount(rows[|rows| - 3], "Withdrawal"))
  {
    if rows == [] then Success(NoTables(NoTablesMessage))
    else if !HasColumn(rows, "Withdrawal") then Failure(KeyError("Withdrawal"))
    else if !HasColumn(rows, "Deposit") then Failure(KeyError("Deposit"))
    else if |rows| < 4 then Failure(IndexError)
    else if !HasColumn(rows, "Particulars") then Failure(KeyError("Particulars"))
    else
      var es := UnionEntries(rows);
      Success(Summary(GroupBy(es), Totals(es[|es| - 4].debit, es[|es| - 3].debit)))
  }

  /** extract_upi_summary over the tables of the statement's pages. It
      builds its rows with a loop of its own rather than by calling
      extract_rows_from_pdf; the postcondition says the two agree. */
  method ExtractUpiSummary(pages: seq<Option<Table>>) returns (r: Result<Response, PandasError>)
    ensures r == Summarize(RowsOf(pages))
  {
    var rows: seq<Record> := [];
    for p := 0 to |pages|
      invariant rows == RowsOf(pages[..p])
    {
      assert pages[..p + 1][..p] == pages[..p];
      var table := pages[p];
      if HasRows(table) {
        var headers := StripAll(table.value[0]);
        for j := 1 to |table.value|
          invariant rows == RowsOf(pages[..p]) + TableRows(table.value)[..j - 1]
        {
          rows := rows + [ZipRecord(headers, table.value[j])];
          assert TableRows(table.value)[..j] == TableRows(table.value)[..j - 1] + [ZipRecord(headers, table.value[j])];
        }
        assert TableRows(table.value)[..|table.value| - 1] == TableRows(table.value);
      }
    }
    assert pages[..|pages|] == pages;
    r := Summarize(rows);
  }

  /** The summary has one record per identifier found in some row's
      Particulars (the summary rows at the end included), no identifier
      twice, in ascending order, and each record sums Withdrawal and Deposit
      and lists Particulars over exactly the rows with its identifier. */
  lemma SummarizeGroups(rows: seq<Record>)
    requires Summarize(rows).Success? && Summarize(rows).value.Summary?
    ensures var gs := Summarize(rows).value.upiSummary;
      && SortedByUpi(gs)
      && (forall i, j :: 0 <= i < j < |gs| ==> gs[i].upi != gs[j].upi)
      && (forall i :: 0 <= i < |gs| ==> gs[i] == Reference(UnionEntries(rows), gs[i].upi))
      && forall k :: k in Keys(gs) <==>
           exists i :: 0 <= i < |rows| && UnionIdentifier(CellText(Cell(rows[i], "Particulars"))) == Some(k)
  {
    var es := UnionEntries(rows);
    GroupBySpec(es);
    GroupByItems(es);
    forall k ensures k in Keys(GroupBy(es)) <==>
        exists i :: 0 <= i < |rows| && UnionIdentifier(CellText(Cell(rows[i], "Particulars"))) == Some(k)
    {
      IdentifiersSpec(es, k);
      if i :| 0 <= i < |es| && es[i].upi == Some(k) {
        assert UnionIdentifier(CellText(Cell(rows[i], "Particulars"))) == Some(k);
      }
      if i :| 0 <= i < |rows| && UnionIdentifier(CellText(Cell(rows[i], "Particulars"))) == Some(k) {
        assert es[i].upi == Some(k);
      }
    }
  }

  /** No row is held back from grouping, the summary rows at the end
      included: a row with an identifier is listed under it. */
  lemma RowGrouped(rows: seq<Record>, i: nat, k: string)
    requires Summarize(rows).Success? && Summarize(rows).value.Summary?
    requires i < |rows| && UnionIdentifier(CellText(Cell(rows[i], "Particulars"))) == Some(k)
    ensures Lookup(Summarize(rows).value.upiSummary, k) == Some(Reference(UnionEntries(rows), k))
    ensures UnionEntries(rows)[i] in RowsWith(UnionEntries(rows), k)
  {
    EntryGrouped(UnionEntries(rows), i);
  }

  /** The groups list as many Particulars as there are rows with an
      identifier, and their totals are those rows' totals. */
  lemma SummarizeCount(rows: seq<Record>)
    requires Summarize(rows).Success? && Summarize(rows).value.Summary?
    ensures var gs := Summarize(rows).value.upiSummary;
      && TransactionCount(gs) == |Identified(UnionEntries(rows))|
      && GroupsDebited(gs) == SumDebit(Identified(UnionEntries(rows)))
      && GroupsCredited(gs) == SumCredit(Identified(UnionEntries(rows)))
  {
    GroupByTotals(UnionEntries(rows));
  }

  /** A row without a Particulars cell reads as "nan", which the Union regex
      matches: it is grouped under the identifier "nan", listing NaN. */
  lemma MissingParticulars(rows: seq<Record>, i: nat)
    requires i < |rows| && "Particulars" !in rows[i]
    ensures UnionEntries(rows)[i].upi == Some("nan")
    ensures UnionEntries(rows)[i].description == None
  {
    assert Cell(rows[i], "Particulars") == None;
    assert forall k :: 0 <= k < |"nan"| ==> IsWordChar("nan"[k]);
    UnionIdentifierOfWord("nan");
    assert CellText(Cell(rows[i], "Particulars")) == "nan";
    assert UnionEntries(rows)[i].upi == UnionIdentifier(CellText(Cell(rows[i], "Particulars")));
  }
}
