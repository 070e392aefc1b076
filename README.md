# ParsePoint statement summariser, modelled in Dafny

ParsePoint reads bank-statement PDFs. Its backend turns the tables of the
statement into row records. The SBI and Union Bank summarisers then do three
things:

- they clean the amount columns;
- they pull a UPI counterparty identifier out of each row's description with
  a regular expression;
- they group the rows by identifier into per-counterparty debit and credit
  totals, plus overall totals.

A text and table service returns the raw page text and tables. The front end
has an upload form with an extension filter, and a dashboard. The dashboard
keeps the upload and selection state and derives pie and bar chart data from
the summary.

The model covers that pipeline, and each part is proved against an
independent definition of what it should compute.

| module | models |
|---|---|
| `Wrappers` | `Option` and `Result` |
| `Text` | Python's `str.strip`; JavaScript's `split(...).pop()` and `toLowerCase` |
| `Seqs` | concatenation of per-element pieces (`ConcatMap`) and its laws |
| `Rows` | `extract_rows_from_pdf`, including `dict(zip(headers, row))` |
| `PdfService` | `extract_text_from_pdf` and `extract_tables_from_pdf` |
| `Amounts` | comma removal and `pd.to_numeric(..., errors="coerce").fillna(0)` |
| `Patterns` | leftmost-longest matchers for the two identifier regexes |
| `Grouping` | `groupby("UPI").agg(sum, sum, list)` as a sorted one-pass fold, with a reference definition |
| `Frames` | DataFrame columns read from row records: missing cells, `KeyError` |
| `SbiBank` | `extract_sbi_summary` |
| `UnionBank` | `extract_upi_summary` |
| `Upload` | the upload form's `handleFileChange` and `parseFile` type guard |
| `App` | the dashboard state handlers and the chart data |

The PDF library is an input. A page is an optional table for row building,
an optional text for the text service, and a list of tables for the table
service. The outcome of the dashboard's POST is an input too: a reply, or a
failure.

Loops are methods proved equal to a specification function. This covers the
row loop, the text accumulation and the table flattening. The state of the
form and of the dashboard is a class whose methods say what changes and what
does not.

The summarisers overwrite DataFrame columns (`df["Debit"] = ...`). These are
whole-column operations, so they are functions over the rows. Pandas' errors
are results:

- a column that no row has raises `KeyError`;
- `df.iloc[-4]` on fewer than four rows raises `IndexError`.

Both bank summaries are stated through `Grouping.Reference`. For each
identifier it takes the rows carrying that identifier, in row order, and
gives their debit sum, their credit sum and their description list. The fold
that builds the summary is proved equal to it: `Grouping.GroupBySpec`.

In `Frontend/src/App.tsx` the pie value of a record is net: debited minus
credited. The summary is charted in the order the server returns it; the
client does not re-sort it. Line 31 takes only `transactions` and
`upi_summary` from the reply; `overall_totals` is not read.

## Model

| member | source | states |
|---|---|---|
| `Rows.ZipRecord` | Backend/app/utils/extract_rows.py:12 | `dict(zip(headers, row))`; stated by `Rows.ZipRecordSpec`: exactly the headers that have a cell, each mapped to its last occurrence's cell |
| `Rows.RowsOf` | Backend/app/utils/extract_rows.py:7-13 | the rows of all pages in page order; stated by `Rows.ExtractRows`, `Rows.RowsOfAppend`, `Rows.RowsOfLength` and `Rows.RowsAt` |
| `Rows.ZipRecordSpec` | Backend/app/utils/extract_rows.py:12 | a record holds exactly the headers that have a cell (zip stops at the shorter list); a header maps to the cell of its last occurrence |
| `Rows.StripAll` | Backend/app/utils/extract_rows.py:10 | every header cell is stripped; the same count, in the same order |
| `Rows.ExtractRows` | Backend/app/utils/extract_rows.py:3-14 | the nested loop builds exactly `RowsOf(pages)` |
| `Rows.RowsOfAppend` | Backend/app/utils/extract_rows.py:7-13 | rows come in page order: the rows of earlier pages come first |
| `Rows.RowsOfLength` | Backend/app/utils/extract_rows.py:10-13 | the row count is the sum over pages with a table of (table length − 1) |
| `Rows.HasRows` | Backend/app/utils/extract_rows.py:9 | `if table:` passes a present, non-empty table only; stated by `Rows.SkippedPage` and `Rows.NoTablesNoRows` |
| `Rows.SkippedPage` | Backend/app/utils/extract_rows.py:8-9 | a page with no table, or an empty one, contributes no rows |
| `Rows.NoTablesNoRows` | Backend/app/utils/extract_rows.py:8-9 | with no non-empty table on any page, there are no rows |
| `Rows.RowsAt` | Backend/app/utils/extract_rows.py:7-13 | row j of page p's table sits after the rows of earlier pages; it zips that page's own stripped header with that table's row j + 1 |
| `PdfService.ExtractText` | app/services/pdf_service.py:4-11 | the loop's text is the strip of the page texts joined in page order; no pages give "" |
| `PdfService.JoinTextsAt` | app/services/pdf_service.py:8-9 | each page's text sits, character for character, right after the texts of the pages before it |
| `PdfService.PageText` | app/services/pdf_service.py:9 | `extract_text() or ""`; stated by `PdfService.MissingTextSkipped` and `PdfService.JoinTextsAt` |
| `PdfService.MissingTextSkipped` | app/services/pdf_service.py:9 | a page without text adds nothing |
| `PdfService.ExtractedTextIsTrimmedJoin` | app/services/pdf_service.py:11 | the result is one slice of the joined text, with only whitespace cut from its ends |
| `PdfService.ExtractTables` | app/services/pdf_service.py:13-22 | the nested loop returns exactly the flattening of the pages' table lists |
| `PdfService.FlattenLength` | app/services/pdf_service.py:16-20 | the table count is the sum of the per-page counts |
| `PdfService.FlattenAt` | app/services/pdf_service.py:16-20 | table k of page p comes right after all tables of earlier pages |
| `Text.Strip` | app/services/pdf_service.py:11 | `str.strip`; stated by `Text.StripSpec` and `Text.StripAllSpace`: the slice left after removing leading and trailing whitespace |
| `Text.StripSpec` | app/services/pdf_service.py:11 | strip gives a slice of its input with whitespace only outside it, and no whitespace at the result's two ends |
| `Text.StripAllSpace` | app/services/pdf_service.py:11 | text made only of whitespace strips to "" |
| `Text.Split` | src/components/Upload.jsx:23 | split yields one more piece than there are separators, so always at least one |
| `Text.LastPiece` | src/components/Upload.jsx:23 | `split('.').pop()`; stated by `Text.LastPieceSpec`, `Text.LastPieceAfter` and `Text.LastPieceNoSep` |
| `Text.LastPieceSpec` | src/components/Upload.jsx:23 | `split('.').pop()` is the text after the last '.', or the whole text when there is none |
| `Text.LastPieceAfter` | src/components/Upload.jsx:23 | with a '.' at i and none after it, the last piece is everything after i |
| `Text.LastPieceNoSep` | src/components/Upload.jsx:23 | with no '.', the last piece is the whole name |
| `Text.Lower` | src/components/Upload.jsx:23 | lower-casing keeps the length; each character is lowered on its own |
| `Text.LowerChar` | src/components/Upload.jsx:23 | an upper-case letter becomes the same letter in lower case; every other character stays |
| `Amounts.ParseDecimal` | Backend/app/services/banks/sbi_bank.py:21-27 | the stand-in for `pd.to_numeric`; `Amounts.ParseDecimalGrammar` states which texts it accepts, `Amounts.ParseDecimalValue` the value of each of them |
| `Amounts.ParseUnsignedGrammar` | Backend/app/services/banks/sbi_bank.py:21-27 | the unsigned parser succeeds if and only if the text is digits, or one '.' with digits on either side and at least one digit in all |
| `Amounts.ParseDecimalValue` | Backend/app/services/banks/sbi_bank.py:21-27 | every text of the grammar parses to its value: an optional '+' or '-' before integer digits, or before integer digits, '.' and fraction digits with at least one digit in all (so "+5" is 5, ".5" is 0.5, "-3." is -3); a '-' negates |
| `Amounts.ParseDecimalGrammar` | Backend/app/services/banks/sbi_bank.py:21-27 | the parser succeeds if and only if the text is an optional '+' or '-' followed by digits, by digits, '.' and optional digits, or by '.' and digits; everything else is not a number |
| `Amounts.UnsignedChars` | Backend/app/services/banks/sbi_bank.py:21-27 | an unsigned decimal holds only digits and '.', and at least one digit |
| `Amounts.ParsedChars` | Backend/app/services/banks/sbi_bank.py:21-27 | every accepted text is digits, '.' and at most a leading sign, with at least one digit |
| `Amounts.CleanAmount` | Backend/app/services/banks/sbi_bank.py:21-27 | one cleaned cell; stated by `Amounts.ParseDecimalValue` (the value of each text in the grammar), `Amounts.CleanRender` (printed amounts), `Amounts.CleanOutsideGrammar`, `Amounts.CleanForeignChar` and `Amounts.CleanNoDigit` (what becomes 0), and `Amounts.CleanAmountIgnoresComma` |
| `Amounts.CleanOutsideGrammar` | Backend/app/services/banks/sbi_bank.py:21-27 | a cell whose comma-free text is outside the grammar cleans to 0 (`errors="coerce"` then `fillna(0)`) |
| `Amounts.CleanForeignChar` | Backend/app/services/banks/sbi_bank.py:21-27 | a character other than a digit, '.' or a leading sign anywhere in the comma-free text makes the cell 0 |
| `Amounts.CleanNoDigit` | Backend/app/services/banks/sbi_bank.py:21-27 | a cell without a digit cleans to 0 |
| `Amounts.RemoveCommas` | Backend/app/services/banks/sbi_bank.py:22 | the result has no comma, is no longer than the input, and leaves comma-free text unchanged |
| `Amounts.RemoveCommasAppend` | Backend/app/services/banks/sbi_bank.py:22 | comma removal distributes over concatenation |
| `Amounts.CleanAmountIgnoresComma` | Backend/app/services/banks/sbi_bank.py:21-23 | a comma inserted anywhere in a cell does not change its cleaned amount |
| `Amounts.GroupThousandsCommas` | Backend/app/services/banks/sbi_bank.py:22 | the thousands separators of a printed amount are exactly what comma removal takes out |
| `Amounts.CleanRender` | Backend/app/services/banks/sbi_bank.py:21-27 | cleaning inverts printing: a signed amount with separators and any number of decimals cleans to its value |
| `Amounts.CleanUnparseable` | Backend/app/services/banks/sbi_bank.py:21-27 | "", "None", "nan", "-" and "." do not parse, so they become 0 |
| `Amounts.CleanExample` | Backend/app/services/banks/sbi_bank.py:21-23 | "1,234.50" cleans to 1234.5 |
| `Patterns.Search` | Backend/app/services/banks/sbi_bank.py:35 | the leftmost scan behind `re.findall(...)[0]`, shared with union_bank.py:43; stated by `Patterns.SearchSpec` |
| `Patterns.SearchSpec` | Backend/app/services/banks/sbi_bank.py:35-36 | the first match is the leftmost: none is found only when no position matches, otherwise no earlier position matches |
| `Patterns.SbiMatchAt` | Backend/app/services/banks/sbi_bank.py:9 | the greedy match of the SBI regex at one position; stated by `Patterns.SbiMatchAtSound` and `Patterns.SbiMatchAtComplete` |
| `Patterns.SbiShapeSlashes` | Backend/app/services/banks/sbi_bank.py:9 | a match of `UPI/[A-Z]*/[0-9]*/[A-Z0-9]*` has exactly three '/' |
| `Patterns.SbiMatchAtSound` | Backend/app/services/banks/sbi_bank.py:9 | what the hand-written matcher returns is in the regex's language |
| `Patterns.SbiMatchAtComplete` | Backend/app/services/banks/sbi_bank.py:9 | every match starting at i is found, and none is longer than the one returned |
| `Patterns.SbiIdentifier` | Backend/app/services/banks/sbi_bank.py:35-36 | `re.findall(...)[0]` or None; stated by `Patterns.SbiIdentifierSpec`: None exactly when nothing matches, else the leftmost longest match |
| `Patterns.SbiIdentifierSpec` | Backend/app/services/banks/sbi_bank.py:35-36 | the identifier is None exactly when no substring matches; otherwise it is the longest match at the leftmost matching position |
| `Patterns.UnionMatchAt` | Backend/app/services/banks/union_bank.py:7 | the greedy match of the Union regex at one position; stated by `Patterns.UnionMatchAtSound` and `Patterns.UnionMatchAtComplete` |
| `Patterns.UnionMatchAtSound` | Backend/app/services/banks/union_bank.py:7 | what the matcher for `[a-zA-Z0-9.\-_]+@*` returns is in its language |
| `Patterns.UnionMatchAtComplete` | Backend/app/services/banks/union_bank.py:7 | every match starting at i is found, and none is longer than the one returned |
| `Patterns.UnionIdentifier` | Backend/app/services/banks/union_bank.py:43-44 | `re.findall(...)[0]` or None; stated by `Patterns.UnionIdentifierSpec`, `Patterns.UnionIdentifierPresent` and `Patterns.UnionIdentifierOfWord` |
| `Patterns.UnionIdentifierSpec` | Backend/app/services/banks/union_bank.py:43-44 | the identifier is None exactly when no substring matches; otherwise it is the longest match at the leftmost matching position |
| `Patterns.UnionIdentifierPresent` | Backend/app/services/banks/union_bank.py:43-44 | an identifier exists if and only if the text holds some character of `[a-zA-Z0-9.\-_]` |
| `Patterns.UnionIdentifierOfWord` | Backend/app/services/banks/union_bank.py:43-44 | a text made only of such characters is its own identifier |
| `Grouping.LexLessIrreflexive` | Backend/app/services/banks/sbi_bank.py:39 | the key order of the sorted groupby (code-point order) is irreflexive |
| `Grouping.LexLessTransitive` | Backend/app/services/banks/sbi_bank.py:39 | the key order is transitive |
| `Grouping.LexLessTotal` | Backend/app/services/banks/sbi_bank.py:39 | the key order is total |
| `Grouping.Lookup` | Backend/app/services/banks/sbi_bank.py:39-43 | a group is found only in the list and for its own key; none is found exactly when the key has no group |
| `Grouping.SortedLookup` | Backend/app/services/banks/sbi_bank.py:39-43 | in sorted groups, keys are unique and each group is found by its key |
| `Grouping.AddSorted` | Backend/app/services/banks/sbi_bank.py:39-43 | adding a row keeps the groups sorted |
| `Grouping.AddKeys` | Backend/app/services/banks/sbi_bank.py:39-43 | adding a row gives its identifier a group and removes none |
| `Grouping.AddLookup` | Backend/app/services/banks/sbi_bank.py:39-43 | adding a row extends (or starts) its identifier's group and leaves every other group as it was |
| `Grouping.IdentifiersSpec` | Backend/app/services/banks/sbi_bank.py:35-39 | the identifiers are exactly those some row carries |
| `Grouping.Descriptions` | Backend/app/services/banks/sbi_bank.py:42 | the `list` aggregation, in row order; stated by `Grouping.AppendSums` and `Grouping.GroupBySpec` |
| `Grouping.AppendSums` | Backend/app/services/banks/sbi_bank.py:40-42 | one more row adds its debit and credit to the sums and its description at the end of the list |
| `Grouping.GroupBy` | Backend/app/services/banks/sbi_bank.py:39-43 | the one-pass groupby fold; stated by `Grouping.GroupBySpec`, `Grouping.GroupByItems`, `Grouping.EntryGrouped` and `Grouping.GroupByTotals` |
| `Grouping.Reference` | Backend/app/services/banks/sbi_bank.py:39-43 | one identifier's group: the sums and descriptions of its rows in row order; `Grouping.GroupBySpec` proves the fold equal to it |
| `Grouping.GroupBySpec` | Backend/app/services/banks/sbi_bank.py:39-43 | the fold's groups are sorted; they hold one group per identifier some row carries; each group is the reference: the sums of that identifier's rows and their descriptions in row order |
| `Grouping.ExtendReference` | Backend/app/services/banks/sbi_bank.py:39-43 | the group a row extends (or starts) becomes the reference group of all rows up to and including it |
| `Grouping.GroupByItems` | Backend/app/services/banks/sbi_bank.py:39-46 | every record of the summary is its identifier's reference group, and no identifier appears twice |
| `Grouping.EntryGrouped` | Backend/app/services/banks/sbi_bank.py:39-43 | every row with an identifier has a group and is among that group's rows |
| `Grouping.AddCounts` | Backend/app/services/banks/sbi_bank.py:39-43 | adding a row adds one description, its debit and its credit to the groups' totals |
| `Grouping.GroupByTotals` | Backend/app/services/banks/sbi_bank.py:39-43 | the groups list one description per row with an identifier, and their totals are the sums over exactly those rows |
| `Grouping.SumsPartition` | Backend/app/services/banks/sbi_bank.py:31-43 | the column sums split into rows with an identifier and rows without one |
| `Frames.HasColumn` | Backend/app/services/banks/sbi_bank.py:21-35 | `df[col]` exists exactly when some record holds col; the `KeyError` cases of `SbiBank.Summarize` and `UnionBank.Summarize` are stated with it |
| `Frames.Amount` | Backend/app/services/banks/sbi_bank.py:21-27 | one cleaned amount cell; stated by `Frames.MissingAmount` and, through `Amounts.CleanAmount`, by `Amounts.CleanRender` |
| `Frames.Entries` | Backend/app/services/banks/sbi_bank.py:21-36 | the rows as the groupby sees them; stated by `Frames.EntriesTotals` |
| `Frames.CellText` | Backend/app/services/banks/sbi_bank.py:22 | `astype(str)`, printing NaN as "nan"; stated by `Frames.MissingAmount` and `UnionBank.MissingParticulars` |
| `Frames.MissingAmount` | Backend/app/services/banks/sbi_bank.py:21-27 | a row the column is missing from reads NaN, which becomes "nan" and then 0 |
| `Frames.ColumnTotal` | Backend/app/services/banks/sbi_bank.py:31-32 | `df[col].sum()`; stated by `Frames.ColumnTotalAppend`, `Frames.EntriesTotals` and `SbiBank.SummarizeTotals` |
| `Frames.ColumnTotalAppend` | Backend/app/services/banks/sbi_bank.py:31-32 | a column sum grows by the amount of the row appended |
| `Frames.EntriesTotals` | Backend/app/services/banks/sbi_bank.py:21-32 | the debit and credit sums the aggregation adds are the sums of the cleaned columns |
| `SbiBank.Summarize` | Backend/app/services/banks/sbi_bank.py:15-53 | no rows give exactly the "No tables found in PDF" error; otherwise a missing Debit, Credit or Details column raises `KeyError`, in that order; a summary comes back if and only if all three columns exist |
| `SbiBank.ExtractSbiSummary` | Backend/app/services/banks/sbi_bank.py:11-53 | the whole endpoint is row building followed by `Summarize` |
| `SbiBank.SummarizeTotals` | Backend/app/services/banks/sbi_bank.py:31-32 | the overall totals are the sums of the cleaned Debit and Credit columns over all rows |
| `SbiBank.SummarizeTotalsSplit` | Backend/app/services/banks/sbi_bank.py:31-43 | the overall totals are the groups' totals plus the rows with no identifier |
| `SbiBank.SummarizeGroups` | Backend/app/services/banks/sbi_bank.py:35-46 | the records are sorted with unique identifiers; each is its reference group; an identifier has a record if and only if some row's Details yields it |
| `SbiBank.RowGrouped` | Backend/app/services/banks/sbi_bank.py:35-43 | a row whose Details yields k is listed in k's record |
| `SbiBank.SummarizeCount` | Backend/app/services/banks/sbi_bank.py:42 | the records list as many Details as there are rows with an identifier |
| `UnionBank.Summarize` | Backend/app/services/banks/union_bank.py:21-61 | no rows give the "No tables found in PDF" error; then a missing Withdrawal or Deposit column raises `KeyError`, fewer than four rows raise `IndexError`, and a missing Particulars column raises `KeyError`, each if and only if reached; a summary comes back if and only if there are at least four rows and all three columns exist, and its totals are the cleaned Withdrawal of the 4th-last and 3rd-last rows |
| `UnionBank.ExtractUpiSummary` | Backend/app/services/banks/union_bank.py:9-61 | the endpoint's own row loop builds exactly the rows `extract_rows_from_pdf` builds (`RowsOf`), and the result is `Summarize` of them |
| `UnionBank.SummarizeGroups` | Backend/app/services/banks/union_bank.py:43-51 | the records are sorted with unique identifiers; each is its reference group (Withdrawal and Deposit sums, Particulars in row order); an identifier has a record if and only if some row's Particulars yields it |
| `UnionBank.RowGrouped` | Backend/app/services/banks/union_bank.py:36-51 | every row whose Particulars yields k is grouped, including the rows the totals are read from |
| `UnionBank.SummarizeCount` | Backend/app/services/banks/union_bank.py:47-51 | the records list one Particulars per row with an identifier; their totals are those rows' Withdrawal and Deposit sums |
| `UnionBank.MissingParticulars` | Backend/app/services/banks/union_bank.py:43-44 | a row without a Particulars cell gets the identifier "nan" (from `str(NaN)`) and is listed with no description |
| `Upload.ParseFile` | src/components/Upload.jsx:33-37 | reading starts if and only if the type is "pdf"; any other type is refused |
| `Upload.Supported` | src/components/Upload.jsx:24-25 | the `includes` test; stated by `Upload.SupportedIsPdf` |
| `Upload.SupportedIsPdf` | src/components/Upload.jsx:24-25 | `supportedTypes.includes('.' + t)` holds if and only if t is "pdf" |
| `Upload.FileType` | src/components/Upload.jsx:23 | the type is as long as the text after the last '.' and holds no upper-case letter; `Upload.FileTypeSpec` states which text it is |
| `Upload.FileTypeSpec` | src/components/Upload.jsx:23 | the type is the lower-cased text after the last '.', or the whole lower-cased name when it has no '.' |
| `Upload.UpperCaseAccepted` | src/components/Upload.jsx:23-25 | "Statement.PDF" has type "pdf" and is accepted |
| `Upload.LastExtensionCounts` | src/components/Upload.jsx:23-25 | "statement.pdf.zip" has type "zip" and is refused |
| `Upload.NameWithoutDot` | src/components/Upload.jsx:23-25 | a file named "pdf", with no '.', has type "pdf" and is accepted |
| `Upload.UploadForm.constructor` | src/components/Upload.jsx:9 | no file is stored at first |
| `Upload.UploadForm.HandleFileChange` | src/components/Upload.jsx:16-31 | the first file (or none) is stored before any check; reading starts if and only if there is a file whose type is "pdf"; an empty list stops with no file; the parseFile guard never refuses here |
| `App.AppState.constructor` | Frontend/src/App.tsx:6-11 | no file, empty transactions and summary, not loading, no error, nothing selected |
| `App.AppState.HandleFileChange` | Frontend/src/App.tsx:13-17 | with a file list, its first file (or none) replaces the stored file; without a list nothing changes; nothing else changes |
| `App.AppState.BeginUpload` | Frontend/src/App.tsx:19-22 | the upload starts if and only if a file is stored; starting sets loading and clears the error; not starting changes nothing |
| `App.AppState.CompleteUpload` | Frontend/src/App.tsx:27-38 | a reply replaces transactions and summary with its fields and keeps the error; a failure sets only the fixed message; loading ends either way |
| `App.AppState.HandleUpload` | Frontend/src/App.tsx:19-39 | without a file, a no-op; otherwise never loading afterwards, with the reply's data and no error, or the old data and the failure message |
| `App.AppState.HandleTransactionClick` | Frontend/src/App.tsx:41-43 | the transaction becomes the selection; nothing else changes |
| `App.AppState.HandleCloseModal` | Frontend/src/App.tsx:45-47 | the selection is cleared; nothing else changes |
| `App.PieData` | Frontend/src/App.tsx:163-166 | one slice per summary record; `App.PieDataAt` states each slice's name and value |
| `App.PieDataAt` | Frontend/src/App.tsx:163-166 | one slice per summary record, in order, named by its identifier, valued at debited minus credited |
| `App.Reduce` | Frontend/src/App.tsx:171-172 | the left-to-right `reduce`; stated by `App.ReduceDebited` and `App.ReduceCredited` |
| `App.BarData` | Frontend/src/App.tsx:170-173 | the two bars; stated by `App.BarDataTotals` and `App.PieBalancesBars` |
| `App.ReduceDebited` | Frontend/src/App.tsx:171 | the left-to-right reduce over `total_debited` adds the records' debit totals to the start value |
| `App.ReduceCredited` | Frontend/src/App.tsx:172 | the same for `total_credited` |
| `App.BarDataTotals` | Frontend/src/App.tsx:170-173 | the bars are exactly [Debited, Credited], with the sums of the records' debit and credit totals |
| `App.PieBalancesBars` | Frontend/src/App.tsx:163-173 | the slices add up to the Debited bar less the Credited bar |
| `App.BarsOfGroupedRows` | Frontend/src/App.tsx:170-173 | for a summary grouped from rows, the bars are the debit and credit sums of the rows that carry an identifier |

## Left out

- The PDF library (`pdfplumber.open`, `extract_table`, `extract_tables`, `extract_text`) is foreign code. Its results are inputs.
- Pages are modelled without `None` cells in tables. A header cell of `None` would make `h.strip()` raise.
- The FastAPI application and routes, `async`, and `UploadFile` are left out, being wiring and I/O.
- The dashboard POSTs to `/pdf/`. No route in `Backend/app/api/pdf_routes.py` has that path. The reply is an input to `App.AppState.CompleteUpload`, whatever the server does.
- `axios`, `FormData` and the browser's `FileReader` are I/O. The upload's outcome is a parameter. Reading the file in `parseFile` is the outcome `ReadStarted`.
- `console.log` and `console.error` messages are left out.
- `App.AppState.HandleUpload`: the request is modelled as finished within one call, and React state updates take effect at once. A second upload started while one is pending is not modelled, and neither is the order in which two replies arrive.
- JSX, recharts, Tailwind and Bootstrap rendering are left out, as are `src/components/Navbar.jsx` and `src/main.jsx`. This includes the `length > 0` guards around the tables and charts.
- `Amounts.CleanAmount`: `pd.to_numeric` is stood in by the decimal grammar `[+-]? (digits ('.' digits?)? | '.' digits)`. Exponents, "inf", surrounding whitespace and other spellings pandas accepts clean to 0 here.
- Amounts are exact reals, not floats. Pandas sums and JavaScript additions are not rounded.
- `Text.Lower`, `Text.LowerChar`, `Upload.FileType`, `Upload.FileTypeSpec`: `toLowerCase` is modelled on ASCII letters only. Other letters with a lower-case form (such as 'Ä') are left unchanged.
- The second copy of `extract_sbi_summary` (Backend/app/services/banks/sbi_bank.py:54-106) is the same code and is modelled once.
- `UnionBank.Summarize` reads the overall `total_credited` from the Withdrawal column of the 3rd-last row, as the code does. The Deposit column may have been meant, but nothing in the code says so.
- The JSON serialisation of the summary (`to_dict(orient="records")`, with field names such as "UPI") is not modelled. A record is a `Grouping.SummaryItem` value.
- A DataFrame cell of a row that lacks the column is NaN. It is modelled as a missing cell: it reads "nan" and cleans to 0. Pandas would list it in a group's `transactions` as NaN, which is `None` here.
