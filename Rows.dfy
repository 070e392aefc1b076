/** Row building (`extract_rows_from_pdf`, and the same loop inlined in the
    Union summariser): every page's table, when the page has one, becomes
    records that map the table's stripped header cells to a row's cells. */
module Rows {
  import opened Wrappers
  import opened Text
  import opened Seqs

  /** A table as the PDF library returns it: rows of cell texts, the first
      row being the header. */
  type Table = seq<seq<string>>

  /** One row record, `dict(zip(headers, row))`. */
  type Record = map<string, string>

  function Min(a: nat, b: nat): nat { if a <= b then a else b }

  /** dict(zip(headers, cells)): pairs are taken while both lists last, and
      a later pair overwrites an earlier one with the same key. */
  function ZipRecord(headers: seq<string>, cells: seq<string>): Record
    decreases |headers|
  {
    var n := Min(|headers|, |cells|);
    if n == 0 then map[]
    else ZipRecord(headers[..n - 1], cells[..n - 1])[headers[n - 1] := cells[n - 1]]
  }

  /** The record holds exactly the headers that have a cell, and each maps
      to the cell of its last occurrence among those. */
  lemma {:induction false} ZipRecordSpec(headers: seq<string>, cells: seq<string>)
    ensures var n := Min(|headers|, |cells|);
      && (forall h :: h in ZipRecord(headers, cells) <==> exists i :: 0 <= i < n && headers[i] == h)
      && forall i :: 0 <= i < n && (forall j :: i < j < n ==> headers[j] != headers[i])
                     ==> ZipRecord(headers, cells)[headers[i]] == cells[i]
    decreases |headers|
  {
    var n := Min(|headers|, |cells|);
    if n > 0 {
      var hs, cs := headers[..n - 1], cells[..n - 1];
      ZipRecordSpec(hs, cs);
      assert Min(|hs|, |cs|) == n - 1;
      var m := ZipRecord(headers, cells);
      assert m == ZipRecord(hs, cs)[headers[n - 1] := cells[n - 1]];
      forall h ensures h in m <==> exists i :: 0 <= i < n && headers[i] == h {
        if h in m && h != headers[n - 1] {
          var i :| 0 <= i < n - 1 && hs[i] == h;
          assert headers[i] == h;
        }
        if i :| 0 <= i < n && headers[i] == h {
          if i < n - 1 { assert hs[i] == h; }
        }
      }
      forall i | 0 <= i < n && (forall j :: i < j < n ==> headers[j] != headers[i])
        ensures m[headers[i]] == cells[i]
      {
        if i < n - 1 {
          assert hs[i] == headers[i];
          assert forall j :: i < j < n - 1 ==> hs[j] != hs[i];
        }
      }
    }
  }

  /** `[h.strip() for h in table[0]]`. */
  function StripAll(cells: seq<string>): (r: seq<string>)
    ensures |r| == |cells|
    ensures forall k :: 0 <= k < |cells| ==> r[k] == Strip(cells[k])
  {
    if cells == [] then [] else [Strip(cells[0])] + StripAll(cells[1..])
  }

  /** The records of one non-empty table: every row after the first, zipped
      with the stripped first row. */
  function TableRows(t: Table): seq<Record>
    requires |t| > 0
  {
    seq(|t| - 1, j requires 0 <= j < |t| - 1 => ZipRecord(StripAll(t[0]), t[j + 1]))
  }

  /** `if table:` lets through a present, non-empty table only. */
  predicate HasRows(page: Option<Table>) {
    page.Some? && |page.value| > 0
  }

  function PageRows(page: Option<Table>): seq<Record> {
    if HasRows(page) then TableRows(page.value) else []
  }

  /** The records of all pages, page after page. */
  function RowsOf(pages: seq<Option<Table>>): seq<Record> {
    ConcatMap(pages, PageRows)
  }

  /** extract_rows_from_pdf, over the tables the PDF library found, one
      entry per page (None where the page has no table). */
  method ExtractRows(pages: seq<Option<Table>>) returns (rows: seq<Record>)
    ensures rows == RowsOf(pages)
  {
    rows := [];
    var p := 0;
    while p < |pages|
      invariant 0 <= p <= |pages|
      invariant rows == RowsOf(pages[..p])
    {
      var table := pages[p];
      assert pages[..p + 1][..p] == pages[..p];
      if table.Some? && |table.value| > 0 {
        var t := table.value;
        var headers := StripAll(t[0]);
        var j := 1;
        while j < |t|
          invariant 1 <= j <= |t|
          invariant rows == RowsOf(pages[..p]) + TableRows(t)[..j - 1]
        {
          rows := rows + [ZipRecord(headers, t[j])];
          assert TableRows(t)[..j] == TableRows(t)[..j - 1] + [ZipRecord(headers, t[j])];
          j := j + 1;
        }
        assert TableRows(t)[..|t| - 1] == TableRows(t);
      }
      p := p + 1;
    }
    assert pages[..|pages|] == pages;
  }

  /** Row building distributes over a split of the pages: the rows of the
      earlier pages come first. */
  lemma RowsOfAppend(a: seq<Option<Table>>, b: seq<Option<Table>>)
    ensures RowsOf(a + b) == RowsOf(a) + RowsOf(b)
  {
    ConcatMapAppend(a, b, PageRows);
  }

  /** The number of rows a page contributes: a table's length less its header. */
  function PageRowCount(page: Option<Table>): nat {
    if HasRows(page) then |page.value| - 1 else 0
  }

  /** Page row counts summed from the first page on. */
  function RowCount(pages: seq<Option<Table>>): nat {
    if pages == [] then 0 else PageRowCount(pages[0]) + RowCount(pages[1..])
  }

  lemma {:induction false} RowCountIsLengthSum(pages: seq<Option<Table>>)
    ensures RowCount(pages) == LengthSum(pages, PageRows)
  {
    if pages != [] {
      RowCountIsLengthSum(pages[1..]);
    }
  }

  /** There are as many rows as the tables have rows below their headers. */
  lemma RowsOfLength(pages: seq<Option<Table>>)
    ensures |RowsOf(pages)| == RowCount(pages)
  {
    ConcatMapLength(pages, PageRows);
    RowCountIsLengthSum(pages);
  }

  /** A page without a table, or with an empty one, adds no rows. */
  lemma SkippedPage(a: seq<Option<Table>>, page: Option<Table>, b: seq<Option<Table>>)
    requires !HasRows(page)
    ensures RowsOf(a + [page] + b) == RowsOf(a + b)
  {
    ConcatMapSkip(a, page, b, PageRows);
  }

  /** With no page holding a non-empty table there are no rows. */
  lemma {:induction false} NoTablesNoRows(pages: seq<Option<Table>>)
    requires forall p :: 0 <= p < |pages| ==> !HasRows(pages[p])
    ensures RowsOf(pages) == []
  {
    if pages != [] {
      NoTablesNoRows(pages[..|pages| - 1]);
    }
  }

  /** Row j of the table on page p sits at the position given by the rows of
      the pages before p, and it zips that table's own header with that
      table's row j + 1. */
  lemma RowsAt(pages: seq<Option<Table>>, p: nat, j: nat)
    requires p < |pages| && HasRows(pages[p]) && j < |pages[p].value| - 1
    ensures RowCount(pages[..p]) + j < |RowsOf(pages)|
    ensures RowsOf(pages)[RowCount(pages[..p]) + j]
         == ZipRecord(StripAll(pages[p].value[0]), pages[p].value[j + 1])
  {
    var t := pages[p].value;
    assert PageRows(pages[p]) == TableRows(t);
    assert TableRows(t)[j] == ZipRecord(StripAll(t[0]), t[j + 1]);
    assert RowCount(pages[..p]) == LengthSum(pages[..p], PageRows) by {
      RowCountIsLengthSum(pages[..p]);
    }
    ConcatMapAt(pages, PageRows, p, j);
  }
}
