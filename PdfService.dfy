/** The text and table services (`extract_text_from_pdf`,
    `extract_tables_from_pdf`), over what the PDF library gives per page:
    an optional text, and a list of tables. */
module PdfService {
  import opened Wrappers
  import opened Text
  import opened Seqs

  /** `page.extract_text() or ""`: a page without text adds nothing. */
  function PageText(text: Option<string>): string {
    text.GetOr("")
  }

  /** The page texts one after another. */
  function JoinTexts(texts: seq<Option<string>>): string {
    ConcatMap(texts, PageText)
  }

  /** extract_text_from_pdf: the page texts appended in page order, then
      stripped. The response's "text" field. */
  method ExtractText(texts: seq<Option<string>>) returns (text: string)
    ensures text == Strip(JoinTexts(texts))
    ensures texts == [] ==> text == ""
  {
    var content := "";
    var p := 0;
    while p < |texts|
      invariant 0 <= p <= |texts|
      invariant content == JoinTexts(texts[..p])
    {
      assert texts[..p + 1][..p] == texts[..p];
      content := content + PageText(texts[p]);
      p := p + 1;
    }
    assert texts[..|texts|] == texts;
    text := Strip(content);
  }

  /** The joined text is the page texts in page order: a page's text starts
      right after the texts of the pages before it. */
  lemma JoinTextsAt(texts: seq<Option<string>>, p: nat, j: nat)
    requires p < |texts| && j < |PageText(texts[p])|
    ensures LengthSum(texts[..p], PageText) + j < |JoinTexts(texts)|
    ensures JoinTexts(texts)[LengthSum(texts[..p], PageText) + j] == PageText(texts[p])[j]
  {
    ConcatMapAt(texts, PageText, p, j);
  }

  /** A page whose text is missing changes nothing. */
  lemma MissingTextSkipped(a: seq<Option<string>>, b: seq<Option<string>>)
    ensures JoinTexts(a + [None] + b) == JoinTexts(a + b)
  {
    ConcatMapSkip(a, None, b, PageText);
  }

  /** All of the extracted text that is not whitespace at its two ends is
      kept: the result is one slice of the joined text with only whitespace
      around it. */
  lemma ExtractedTextIsTrimmedJoin(texts: seq<Option<string>>)
    ensures var joined := JoinTexts(texts);
      exists i, j :: 0 <= i <= j <= |joined| && Strip(joined) == joined[i..j]
                     && AllSpace(joined[..i]) && AllSpace(joined[j..])
  {
    StripSpec(JoinTexts(texts));
  }

  /** One page's tables, unchanged: the identity, named so that `Flatten`
      can pass it to `ConcatMap` and the lemmas can refer to it. */
  function PageTables<T>(tables: seq<T>): seq<T> {
    tables
  }

  /** The tables of all pages in one list. */
  function Flatten<T>(pages: seq<seq<T>>): seq<T> {
    ConcatMap(pages, PageTables)
  }

  /** extract_tables_from_pdf: every table of every page, in order. The
      response's "tables" field. */
  method ExtractTables<T>(pages: seq<seq<T>>) returns (tables: seq<T>)
    ensures tables == Flatten(pages)
  {
    tables := [];
    var p := 0;
    while p < |pages|
      invariant 0 <= p <= |pages|
      invariant tables == Flatten(pages[..p])
    {
      assert pages[..p + 1][..p] == pages[..p];
      var pageTables := pages[p];
      var k := 0;
      while k < |pageTables|
        invariant 0 <= k <= |pageTables|
        invariant tables == Flatten(pages[..p]) + pageTables[..k]
      {
        tables := tables + [pageTables[k]];
        assert pageTables[..k + 1] == pageTables[..k] + [pageTables[k]];
        k := k + 1;
      }
      assert pageTables[..k] == pageTables;
      p := p + 1;
    }
    assert pages[..|pages|] == pages;
  }

  /** Tables counted page by page. */
  function TableCount<T>(pages: seq<seq<T>>): nat {
    if pages == [] then 0 else |pages[0]| + TableCount(pages[1..])
  }

  lemma {:induction false} TableCountIsLengthSum<T>(pages: seq<seq<T>>)
    ensures TableCount(pages) == LengthSum(pages, PageTables)
  {
    if pages != [] {
      TableCountIsLengthSum(pages[1..]);
    }
  }

  /** As many tables come back as the pages hold. */
  lemma FlattenLength<T>(pages: seq<seq<T>>)
    ensures |Flatten(pages)| == TableCount(pages)
  {
    ConcatMapLength(pages, PageTables);
    TableCountIsLengthSum(pages);
  }

  /** Table k of page p comes after all tables of the pages before p. */
  lemma FlattenAt<T>(pages: seq<seq<T>>, p: nat, k: nat)
    requires p < |pages| && k < |pages[p]|
    ensures TableCount(pages[..p]) + k < |Flatten(pages)|
    ensures Flatten(pages)[TableCount(pages[..p]) + k] == pages[p][k]
  {
    ConcatMapAt(pages, PageTables, p, k);
    TableCountIsLengthSum(pages[..p]);
  }
}
