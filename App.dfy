/** The dashboard of Frontend/src/App.tsx: its state cells, the handlers
    that change them, and the chart data it derives from the UPI summary. */
module App {
  import opened Wrappers
  import opened Upload
  import opened Grouping

  /** A transaction record as the dashboard receives it. */
  type Transaction = map<string, string>

  const FailureMessage: string := "Failed to process the PDF. Please try again."

  /** The two fields read from `response.data`; a field the reply lacks
      reads as undefined (None) and is stored as such. */
  datatype Reply = Reply(transactions: Option<seq<Transaction>>, upiSummary: Option<seq<SummaryItem>>)

  /** How the POST ends: with a reply, or by throwing. */
  datatype UploadOutcome = Replied(reply: Reply) | Failed

  class AppState {
    var file: Option<BrowserFile>
    var transactions: Option<seq<Transaction>>
    var upiSummary: Option<seq<SummaryItem>>
    var loading: bool
    var error: Option<string>
    var selected: Option<Transaction>

    /** The initial values of the useState cells. */
    constructor()
      ensures file == None && transactions == Some([]) && upiSummary == Some([])
      ensures !loading && error == None && selected == None
    {
      file := None;
      transactions := Some([]);
      upiSummary := Some([]);
      loading := false;
      error := None;
      selected := None;
    }

    /** handleFileChange: with a file list, its first file (none when the
        list is empty) replaces the stored file; without one nothing changes. */
    method HandleFileChange(files: Option<seq<BrowserFile>>)
      modifies this
      ensures file == (if files.None? then old(file)
                       else if files.value == [] then None else Some(files.value[0]))
      ensures transactions == old(transactions) && upiSummary == old(upiSummary)
      ensures loading == old(loading) && error == old(error) && selected == old(selected)
    {
      if files.Some? {
        file := if files.value == [] then None else Some(files.value[0]);
      }
    }

    /** handleUpload up to the request: without a file it returns at once;
        otherwise loading is set and the error cleared. */
    method BeginUpload() returns (started: bool)
      modifies this
      ensures started <==> old(file).Some?
      ensures started ==> loading && error == None
      ensures !started ==> loading == old(loading) && error == old(error)
      ensures file == old(file) && transactions == old(transactions)
      ensures upiSummary == old(upiSummary) && selected == old(selected)
    {
      if file.None? {
        return false;
      }
      loading := true;
      error := None;
      started := true;
    }

    /** handleUpload from the reply on: a reply replaces the transactions and
        the summary with its fields; a failure sets the fixed message and
        keeps the old data; loading ends either way. */
    method CompleteUpload(outcome: UploadOutcome)
      modifies this
      ensures outcome.Replied? ==> && transactions == outcome.reply.transactions
                                   && upiSummary == outcome.reply.upiSummary
                                   && error == old(error)
      ensures outcome.Failed? ==> && error == Some(FailureMessage)
                                  && transactions == old(transactions)
                                  && upiSummary == old(upiSummary)
      ensures !loading
      ensures file == old(file) && selected == old(selected)
    {
      match outcome {
        case Replied(reply) =>
          transactions := reply.transactions;
          upiSummary := reply.upiSummary;
        case Failed =>
          error := Some(FailureMessage);
      }
      loading := false;
    }

    /** handleUpload, with the outcome of its request: a no-op without a
        file; otherwise the new data or the failure message, and never
        loading afterwards. */
    method HandleUpload(outcome: UploadOutcome) returns (started: bool)
      modifies this
      ensures started <==> old(file).Some?
      ensures !started ==> && transactions == old(transactions) && upiSummary == old(upiSummary)
                           && loading == old(loading) && error == old(error)
      ensures started ==> && !loading
                          && (outcome.Replied? ==> && transactions == outcome.reply.transactions
                                                   && upiSummary == outcome.reply.upiSummary
                                                   && error == None)
                          && (outcome.Failed? ==> && error == Some(FailureMessage)
                                                  && transactions == old(transactions)
                                                  && upiSummary == old(upiSummary))
      ensures file == old(file) && selected == old(selected)
    {
      started := BeginUpload();
      if started {
        CompleteUpload(outcome);
      }
    }

    /** handleTransactionClick: selects the transaction and nothing else. */
    method HandleTransactionClick(t: Transaction)
      modifies this
      ensures selected == Some(t)
      ensures file == old(file) && transactions == old(transactions) && upiSummary == old(upiSummary)
      ensures loading == old(loading) && error == old(error)
    {
      selected := Some(t);
    }

    /** handleCloseModal: clears the selection and nothing else. */
    method HandleCloseModal()
      modifies this
      ensures selected == None
      ensures file == old(file) && transactions == old(transactions) && upiSummary == old(upiSummary)
      ensures loading == old(loading) && error == old(error)
    {
      selected := None;
    }
  }

  // ---------------- Chart data ----------------

  /** One slice of the pie: `{ name: summary.UPI, value: ... }`. */
  datatype PieSlice = PieSlice(name: string, value: real)

  /** One bar: `{ name, total }`. */
  datatype BarEntry = BarEntry(name: string, total: real)

  /** `upiSummary.map(...)`: each record's net outflow. */
  function PieData(s: seq<SummaryItem>): (r: seq<PieSlice>)
    ensures |r| == |s|
  {
    if s == [] then []
    else [PieSlice(s[0].upi, s[0].totalDebited - s[0].totalCredited)] + PieData(s[1..])
  }

  /** `upiSummary.reduce((acc, curr) => acc + f(curr), acc)`, left to right. */
  function Reduce(s: seq<SummaryItem>, acc: real, f: SummaryItem -> real): real {
    if s == [] then acc else Reduce(s[1..], acc + f(s[0]), f)
  }

  function Debited(g: SummaryItem): real { g.totalDebited }
  function Credited(g: SummaryItem): real { g.totalCredited }

  /** The two bars, debited first. */
  function BarData(s: seq<SummaryItem>): seq<BarEntry> {
    [BarEntry("Debited", Reduce(s, 0.0, Debited)), BarEntry("Credited", Reduce(s, 0.0, Credited))]
  }

  /** One slice per record, in the summary's order, named by its identifier
      and valued at its debits less its credits. */
  lemma {:induction false} PieDataAt(s: seq<SummaryItem>)
    ensures |PieData(s)| == |s|
    ensures forall i :: 0 <= i < |s| ==>
      PieData(s)[i] == PieSlice(s[i].upi, s[i].totalDebited - s[i].totalCredited)
  {
    if s != [] {
      PieDataAt(s[1..]);
      forall i | 0 < i < |s|
        ensures PieData(s)[i] == PieSlice(s[i].upi, s[i].totalDebited - s[i].totalCredited)
      {
        assert PieData(s)[i] == PieData(s[1..])[i - 1];
        assert s[1..][i - 1] == s[i];
      }
    }
  }

  lemma {:induction false} ReduceDebited(s: seq<SummaryItem>, acc: real)
    ensures Reduce(s, acc, Debited) == acc + GroupsDebited(s)
  {
    if s != [] { ReduceDebited(s[1..], acc + Debited(s[0])); }
  }

  lemma {:induction false} ReduceCredited(s: seq<SummaryItem>, acc: real)
    ensures Reduce(s, acc, Credited) == acc + GroupsCredited(s)
  {
    if s != [] { ReduceCredited(s[1..], acc + Credited(s[0])); }
  }

  /** The bars are the summary's total debits and total credits. */
  lemma BarDataTotals(s: seq<SummaryItem>)
    ensures BarData(s) == [BarEntry("Debited", GroupsDebited(s)), BarEntry("Credited", GroupsCredited(s))]
  {
    ReduceDebited(s, 0.0);
    ReduceCredited(s, 0.0);
  }

  /** The values of the slices, added up. */
  function PieTotal(p: seq<PieSlice>): real {
    if p == [] then 0.0 else p[0].value + PieTotal(p[1..])
  }

  /** The slices add up to the first bar less the second. */
  lemma {:induction false} PieBalancesBars(s: seq<SummaryItem>)
    ensures PieTotal(PieData(s)) == BarData(s)[0].total - BarData(s)[1].total
  {
    PieMinus(s);
    BarDataTotals(s);
  }

  lemma {:induction false} PieMinus(s: seq<SummaryItem>)
    ensures PieTotal(PieData(s)) == GroupsDebited(s) - GroupsCredited(s)
  {
    if s != [] {
      PieMinus(s[1..]);
      assert PieData(s)[1..] == PieData(s[1..]);
    }
  }

  /** For a summary grouped from rows, the bars show the totals of the rows
      that carry an identifier. */
  lemma BarsOfGroupedRows(es: seq<Entry>)
    ensures BarData(GroupBy(es))
         == [BarEntry("Debited", SumDebit(Identified(es))), BarEntry("Credited", SumCredit(Identified(es)))]
  {
    BarDataTotals(GroupBy(es));
    GroupByTotals(es);
  }
}
