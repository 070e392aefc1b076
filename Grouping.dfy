/** `df.groupby("UPI").agg(total_debited=(debit, "sum"),
    total_credited=(credit, "sum"), transactions=(description, list))
    .reset_index().to_dict(orient="records")`, as pandas defines it by
    default: rows whose key is None join no group, and the groups come out
    sorted by key. The aggregation is computed the way one pass over the
    rows would (GroupBy) and proved equal to a row-filtering reference
    (Reference). */
module Grouping {
  import opened Wrappers

  /** One DataFrame row as the aggregation sees it: its identifier (None
      when the regex found nothing), its cleaned amounts, and its
      description cell (None where the row has no such cell, pandas' NaN). */
  datatype Entry = Entry(upi: Option<string>, debit: real, credit: real, description: Option<string>)

  /** One record of the summary: the field names are "UPI",
      "total_debited", "total_credited" and "transactions". */
  datatype SummaryItem = SummaryItem(upi: string, totalDebited: real, totalCredited: real,
                                     transactions: seq<Option<string>>)

  // ---------------- Python's order on str ----------------

  /** a < b for Python strings: lexicographic by code point, a proper prefix
      coming first. */
  predicate LexLess(a: string, b: string)
    decreases |a|
  {
    if a == [] then b != []
    else if b == [] then false
    else if a[0] != b[0] then a[0] < b[0]
    else LexLess(a[1..], b[1..])
  }

  lemma {:induction false} LexLessIrreflexive(a: string)
    ensures !LexLess(a, a)
  {
    if a != [] { LexLessIrreflexive(a[1..]); }
  }

  lemma {:induction false} LexLessTransitive(a: string, b: string, c: string)
    requires LexLess(a, b) && LexLess(b, c)
    ensures LexLess(a, c)
    decreases |a|
  {
    if a != [] && b != [] && c != [] && a[0] == b[0] && b[0] == c[0] {
      LexLessTransitive(a[1..], b[1..], c[1..]);
    }
  }

  lemma {:induction false} LexLessTotal(a: string, b: string)
    ensures a == b || LexLess(a, b) || LexLess(b, a)
    decreases |a|
  {
    if a != [] && b != [] && a[0] == b[0] {
      LexLessTotal(a[1..], b[1..]);
      if a[1..] == b[1..] {
        assert a == [a[0]] + a[1..] && b == [b[0]] + b[1..];
      }
    }
  }

  // ---------------- Lists of groups ----------------

  ghost predicate SortedByUpi(gs: seq<SummaryItem>) {
    forall i, j :: 0 <= i < j < |gs| ==> LexLess(gs[i].upi, gs[j].upi)
  }

  /** The identifiers the groups are for. */
  function Keys(gs: seq<SummaryItem>): set<string> {
    set i | 0 <= i < |gs| :: gs[i].upi
  }

  lemma KeysCons(g: SummaryItem, gs: seq<SummaryItem>)
    ensures Keys([g] + gs) == {g.upi} + Keys(gs)
  {
    var r := [g] + gs;
    assert r[0] == g;
    assert g.upi in Keys(r);
    forall x | x in Keys(r) ensures x in {g.upi} + Keys(gs) {
      var i :| 0 <= i < |r| && r[i].upi == x;
      if i > 0 { assert r[i] == gs[i - 1]; assert gs[i - 1].upi in Keys(gs); }
    }
    forall x | x in Keys(gs) ensures x in Keys(r) {
      var i :| 0 <= i < |gs| && gs[i].upi == x;
      assert r[i + 1] == gs[i];
      assert r[i + 1].upi in Keys(r);
    }
  }

  /** A sorted list is its first group before a sorted rest of larger keys. */
  lemma SortedUncons(gs: seq<SummaryItem>)
    requires SortedByUpi(gs) && gs != []
    ensures gs == [gs[0]] + gs[1..]
    ensures SortedByUpi(gs[1..])
    ensures forall x :: x in Keys(gs[1..]) ==> LexLess(gs[0].upi, x)
  {
    forall x | x in Keys(gs[1..]) ensures LexLess(gs[0].upi, x) {
      var i :| 0 <= i < |gs[1..]| && gs[1..][i].upi == x;
      assert gs[i + 1].upi == x;
    }
  }

  lemma SortedCons(g: SummaryItem, gs: seq<SummaryItem>)
    requires SortedByUpi(gs) && forall x :: x in Keys(gs) ==> LexLess(g.upi, x)
    ensures SortedByUpi([g] + gs)
  {
    var r := [g] + gs;
    forall i, j | 0 <= i < j < |r| ensures LexLess(r[i].upi, r[j].upi) {
      if i == 0 { assert r[j].upi == gs[j - 1].upi; assert gs[j - 1].upi in Keys(gs); }
      else { assert r[i] == gs[i - 1] && r[j] == gs[j - 1]; }
    }
  }

  /** The first group for key, if there is one. */
  function Lookup(gs: seq<SummaryItem>, key: string): (r: Option<SummaryItem>)
    ensures r.Some? ==> r.value in gs && r.value.upi == key
    ensures r.None? <==> key !in Keys(gs)
  {
    if gs == [] then None
    else if gs[0].upi == key then Some(gs[0])
    else
      var r := Lookup(gs[1..], key);
      KeysCons(gs[0], gs[1..]);
      assert [gs[0]] + gs[1..] == gs;
      r
  }

  /** In a sorted list, keys are unique and Lookup finds every group. */
  lemma SortedLookup(gs: seq<SummaryItem>, i: nat)
    requires SortedByUpi(gs) && i < |gs|
    ensures Lookup(gs, gs[i].upi) == Some(gs[i])
    ensures forall j :: 0 <= j < |gs| && j != i ==> gs[j].upi != gs[i].upi
  {
    forall j | 0 <= j < |gs| && j != i ensures gs[j].upi != gs[i].upi {
      if j < i { LexLessIrreflexive(gs[i].upi); }
      if i < j { LexLessIrreflexive(gs[i].upi); }
    }
    LookupFirst(gs, i);
  }

  lemma {:induction false} LookupFirst(gs: seq<SummaryItem>, i: nat)
    requires i < |gs| && forall j :: 0 <= j < i ==> gs[j].upi != gs[i].upi
    ensures Lookup(gs, gs[i].upi) == Some(gs[i])
  {
    if i > 0 {
      assert gs[1..][i - 1] == gs[i];
      LookupFirst(gs[1..], i - 1);
    }
  }

  /** One row's contribution to a group: the group it starts, or the group
      it extends with its amounts and its description. */
  function Extend(g: Option<SummaryItem>, key: string, e: Entry): SummaryItem {
    match g
    case None => SummaryItem(key, e.debit, e.credit, [e.description])
    case Some(x) => x.(totalDebited := x.totalDebited + e.debit,
                       totalCredited := x.totalCredited + e.credit,
                       transactions := x.transactions + [e.description])
  }

  /** A row with identifier key, added to sorted groups. */
  function Add(gs: seq<SummaryItem>, key: string, e: Entry): seq<SummaryItem> {
    if gs == [] then [Extend(None, key, e)]
    else if gs[0].upi == key then [Extend(Some(gs[0]), key, e)] + gs[1..]
    else if LexLess(key, gs[0].upi) then [Extend(None, key, e)] + gs
    else [gs[0]] + Add(gs[1..], key, e)
  }

  lemma LookupCons(g: SummaryItem, gs: seq<SummaryItem>, k: string)
    ensures Lookup([g] + gs, k) == if g.upi == k then Some(g) else Lookup(gs, k)
  {
    assert ([g] + gs)[1..] == gs;
  }

  /** Adding a row keeps the groups sorted. */
  lemma {:induction false} AddSorted(gs: seq<SummaryItem>, key: string, e: Entry)
    requires SortedByUpi(gs)
    ensures SortedByUpi(Add(gs, key, e))
  {
    if gs != [] {
      var g, tail := gs[0], gs[1..];
      SortedUncons(gs);
      if g.upi == key {
        var x := Extend(Some(g), key, e);
        SortedCons(x, tail);
      } else if LexLess(key, g.upi) {
        var x := Extend(None, key, e);
        KeysCons(g, tail);
        forall y | y in Keys(gs) ensures LexLess(key, y) {
          if y != g.upi { LexLessTransitive(key, g.upi, y); }
        }
        SortedCons(x, gs);
      } else {
        LexLessTotal(key, g.upi);
        AddSorted(tail, key, e);
        AddKeys(tail, key, e);
        SortedCons(g, Add(tail, key, e));
      }
    }
  }

  /** Adding a row gives its identifier a group and removes none. */
  lemma {:induction false} AddKeys(gs: seq<SummaryItem>, key: string, e: Entry)
    ensures Keys(Add(gs, key, e)) == Keys(gs) + {key}
  {
    if gs == [] {
      KeysCons(Extend(None, key, e), []);
      assert [Extend(None, key, e)] + [] == [Extend(None, key, e)];
    } else {
      var g, tail := gs[0], gs[1..];
      assert gs == [g] + tail;
      KeysCons(g, tail);
      if g.upi == key {
        KeysCons(Extend(Some(g), key, e), tail);
      } else if LexLess(key, g.upi) {
        KeysCons(Extend(None, key, e), gs);
      } else {
        AddKeys(tail, key, e);
        KeysCons(g, Add(tail, key, e));
      }
    }
  }

  /** Adding a row extends the group of its identifier (or starts it) and
      leaves every other group as it was. */
  lemma {:induction false} AddLookup(gs: seq<SummaryItem>, key: string, e: Entry, k: string)
    requires SortedByUpi(gs)
    ensures Lookup(Add(gs, key, e), k)
         == if k == key then Some(Extend(Lookup(gs, key), key, e)) else Lookup(gs, k)
  {
    if gs != [] {
      var g, tail := gs[0], gs[1..];
      SortedUncons(gs);
      LookupCons(g, tail, k);
      LookupCons(g, tail, key);
      if g.upi == key {
        LookupCons(Extend(Some(g), key, e), tail, k);
      } else if LexLess(key, g.upi) {
        LookupCons(Extend(None, key, e), gs, k);
        if key in Keys(tail) { LexLessTransitive(key, g.upi, key); LexLessIrreflexive(key); }
      } else {
        AddLookup(tail, key, e, k);
        LookupCons(g, Add(tail, key, e), k);
      }
    }
  }

  // ---------------- The aggregation ----------------

  /** The groups of the rows, one row after the other. */
  function GroupBy(es: seq<Entry>): seq<SummaryItem> {
    if es == [] then []
    else
      var gs := GroupBy(es[..|es| - 1]);
      var e := es[|es| - 1];
      if e.upi.Some? then Add(gs, e.upi.value, e) else gs
  }

  // ---------------- The reference: filter, then sum ----------------

  /** The identifiers that occur in the rows. */
  function Identifiers(es: seq<Entry>): set<string> {
    if es == [] then {}
    else
      var e := es[|es| - 1];
      Identifiers(es[..|es| - 1]) + (if e.upi.Some? then {e.upi.value} else {})
  }

  /** The rows carrying identifier key, in row order. */
  function RowsWith(es: seq<Entry>, key: string): seq<Entry> {
    if es == [] then []
    else
      var e := es[|es| - 1];
      RowsWith(es[..|es| - 1], key) + (if e.upi == Some(key) then [e] else [])
  }

  /** The rows carrying some identifier, in row order. */
  function Identified(es: seq<Entry>): seq<Entry> {
    if es == [] then []
    else
      var e := es[|es| - 1];
      Identified(es[..|es| - 1]) + (if e.upi.Some? then [e] else [])
  }

  /** The rows carrying no identifier, in row order. */
  function Unidentified(es: seq<Entry>): seq<Entry> {
    if es == [] then []
    else
      var e := es[|es| - 1];
      Unidentified(es[..|es| - 1]) + (if e.upi.None? then [e] else [])
  }

  /** The column sum, pandas' "sum", added in row order. */
  function SumDebit(es: seq<Entry>): real {
    if es == [] then 0.0 else SumDebit(es[..|es| - 1]) + es[|es| - 1].debit
  }

  function SumCredit(es: seq<Entry>): real {
    if es == [] then 0.0 else SumCredit(es[..|es| - 1]) + es[|es| - 1].credit
  }

  /** The descriptions, pandas' "list". */
  function Descriptions(es: seq<Entry>): seq<Option<string>> {
    if es == [] then [] else Descriptions(es[..|es| - 1]) + [es[|es| - 1].description]
  }

  /** The group of key, as the rows with that key define it. */
  function Reference(es: seq<Entry>, key: string): SummaryItem {
    var w := RowsWith(es, key);
    SummaryItem(key, SumDebit(w), SumCredit(w), Descriptions(w))
  }

  /** Identifiers holds exactly the identifiers some row carries. */
  lemma {:induction false} IdentifiersSpec(es: seq<Entry>, key: string)
    ensures key in Identifiers(es) <==> exists i :: 0 <= i < |es| && es[i].upi == Some(key)
  {
    if es != [] {
      var es' := es[..|es| - 1];
      IdentifiersSpec(es', key);
      if i :| 0 <= i < |es'| && es'[i].upi == Some(key) {
        assert es[i] == es'[i];
      }
      if i :| 0 <= i < |es| && es[i].upi == Some(key) {
        if i < |es'| { assert es'[i] == es[i]; }
      }
    }
  }

  lemma {:induction false} RowsWithAbsent(es: seq<Entry>, key: string)
    requires key !in Identifiers(es)
    ensures RowsWith(es, key) == []
  {
    if es != [] { RowsWithAbsent(es[..|es| - 1], key); }
  }

  lemma AppendSums(w: seq<Entry>, e: Entry)
    ensures SumDebit(w + [e]) == SumDebit(w) + e.debit
    ensures SumCredit(w + [e]) == SumCredit(w) + e.credit
    ensures Descriptions(w + [e]) == Descriptions(w) + [e.description]
  {
    assert (w + [e])[..|w|] == w;
  }

  /** The one-pass aggregation equals the reference: its groups are sorted
      by identifier (so no identifier has two groups), there is a group for
      exactly the identifiers some row carries, and the group for an
      identifier sums and lists exactly the rows with that identifier. */
  lemma {:induction false} GroupBySpec(es: seq<Entry>)
    ensures SortedByUpi(GroupBy(es))
    ensures Keys(GroupBy(es)) == Identifiers(es)
    ensures forall k :: Lookup(GroupBy(es), k) == if k in Identifiers(es) then Some(Reference(es, k)) else None
  {
    if es != [] {
      var es', e := es[..|es| - 1], es[|es| - 1];
      GroupBySpec(es');
      var gs := GroupBy(es');
      if e.upi.Some? {
        assert GroupBy(es) == Add(gs, e.upi.value, e);
        assert Identifiers(es) == Identifiers(es') + {e.upi.value};
        AddSorted(gs, e.upi.value, e);
        AddKeys(gs, e.upi.value, e);
      } else {
        assert GroupBy(es) == gs;
        assert Identifiers(es) == Identifiers(es');
      }
      forall k ensures Lookup(GroupBy(es), k) == if k in Identifiers(es) then Some(Reference(es, k)) else None {
        GroupByLookupStep(es, k);
      }
    }
  }

  /** The inductive step of GroupBySpec for one identifier: the last row
      changes only the group of its own identifier, by Extend. */
  lemma {:induction false} GroupByLookupStep(es: seq<Entry>, k: string)
    requires es != []
    requires SortedByUpi(GroupBy(es[..|es| - 1]))
    requires Lookup(GroupBy(es[..|es| - 1]), k)
          == if k in Identifiers(es[..|es| - 1]) then Some(Reference(es[..|es| - 1], k)) else None
    ensures Lookup(GroupBy(es), k) == if k in Identifiers(es) then Some(Reference(es, k)) else None
  {
    if es[|es| - 1].upi == Some(k) {
      GroupByOwnGroup(es, k);
    } else {
      GroupByOtherGroup(es, k);
    }
  }

  lemma {:induction false} GroupByOwnGroup(es: seq<Entry>, k: string)
    requires es != [] && es[|es| - 1].upi == Some(k)
    requires SortedByUpi(GroupBy(es[..|es| - 1]))
    requires Lookup(GroupBy(es[..|es| - 1]), k)
          == if k in Identifiers(es[..|es| - 1]) then Some(Reference(es[..|es| - 1], k)) else None
    ensures Lookup(GroupBy(es), k) == Some(Reference(es, k))
  {
    var gs := GroupBy(es[..|es| - 1]);
    assert GroupBy(es) == Add(gs, k, es[|es| - 1]);
    AddLookup(gs, k, es[|es| - 1], k);
    ExtendReference(es, k, Lookup(gs, k));
  }

  /** The group the last row extends, or starts, is the reference group of
      all the rows. */
  lemma ExtendReference(es: seq<Entry>, k: string, g: Option<SummaryItem>)
    requires es != [] && es[|es| - 1].upi == Some(k)
    requires g == if k in Identifiers(es[..|es| - 1]) then Some(Reference(es[..|es| - 1], k)) else None
    ensures Extend(g, k, es[|es| - 1]) == Reference(es, k)
  {
    var es', e := es[..|es| - 1], es[|es| - 1];
    var w := RowsWith(es', k);
    assert RowsWith(es, k) == w + [e];
    AppendSums(w, e);
    if g.None? {
      RowsWithAbsent(es', k);
      assert Descriptions(w) + [e.description] == [e.description];
    }
  }

  lemma {:induction false} GroupByOtherGroup(es: seq<Entry>, k: string)
    requires es != [] && es[|es| - 1].upi != Some(k)
    requires SortedByUpi(GroupBy(es[..|es| - 1]))
    requires Lookup(GroupBy(es[..|es| - 1]), k)
          == if k in Identifiers(es[..|es| - 1]) then Some(Reference(es[..|es| - 1], k)) else None
    ensures Lookup(GroupBy(es), k) == if k in Identifiers(es) then Some(Reference(es, k)) else None
  {
    var es', e := es[..|es| - 1], es[|es| - 1];
    var gs := GroupBy(es');
    assert RowsWith(es, k) == RowsWith(es', k);
    assert k in Identifiers(es) <==> k in Identifiers(es');
    if e.upi.Some? {
      assert GroupBy(es) == Add(gs, e.upi.value, e);
      AddLookup(gs, e.upi.value, e, k);
    } else {
      assert GroupBy(es) == gs;
    }
  }

  /** Every group in the summary is the reference group of its identifier. */
  lemma GroupByItems(es: seq<Entry>)
    ensures forall i :: 0 <= i < |GroupBy(es)| ==> GroupBy(es)[i] == Reference(es, GroupBy(es)[i].upi)
    ensures forall i, j :: 0 <= i < j < |GroupBy(es)| ==> GroupBy(es)[i].upi != GroupBy(es)[j].upi
  {
    GroupBySpec(es);
    var gs := GroupBy(es);
    forall i | 0 <= i < |gs| ensures gs[i] == Reference(es, gs[i].upi) {
      SortedLookup(gs, i);
      assert gs[i].upi in Keys(gs);
    }
    forall i, j | 0 <= i < j < |gs| ensures gs[i].upi != gs[j].upi {
      SortedLookup(gs, i);
    }
  }

  /** rows[i] is one of the rows its identifier's group is built from. */
  lemma {:induction false} RowsWithHas(es: seq<Entry>, i: nat)
    requires i < |es| && es[i].upi.Some?
    ensures es[i] in RowsWith(es, es[i].upi.value)
  {
    var es' := es[..|es| - 1];
    if i < |es| - 1 {
      assert es'[i] == es[i];
      RowsWithHas(es', i);
    }
  }

  /** Every row with an identifier has a group, and is among that group's rows. */
  lemma EntryGrouped(es: seq<Entry>, i: nat)
    requires i < |es| && es[i].upi.Some?
    ensures Lookup(GroupBy(es), es[i].upi.value) == Some(Reference(es, es[i].upi.value))
    ensures es[i] in RowsWith(es, es[i].upi.value)
  {
    GroupBySpec(es);
    IdentifiersSpec(es, es[i].upi.value);
    RowsWithHas(es, i);
  }

  // ---------------- Counts and totals over the groups ----------------

  /** How many descriptions the groups list in all. */
  function TransactionCount(gs: seq<SummaryItem>): nat {
    if gs == [] then 0 else |gs[0].transactions| + TransactionCount(gs[1..])
  }

  /** The sum of the groups' debit totals, front to back. */
  function GroupsDebited(gs: seq<SummaryItem>): real {
    if gs == [] then 0.0 else gs[0].totalDebited + GroupsDebited(gs[1..])
  }

  function GroupsCredited(gs: seq<SummaryItem>): real {
    if gs == [] then 0.0 else gs[0].totalCredited + GroupsCredited(gs[1..])
  }

  lemma {:induction false} AddCounts(gs: seq<SummaryItem>, key: string, e: Entry)
    ensures TransactionCount(Add(gs, key, e)) == TransactionCount(gs) + 1
    ensures GroupsDebited(Add(gs, key, e)) == GroupsDebited(gs) + e.debit
    ensures GroupsCredited(Add(gs, key, e)) == GroupsCredited(gs) + e.credit
  {
    if gs == [] {
    } else if gs[0].upi == key {
      assert Add(gs, key, e)[1..] == gs[1..];
    } else if LexLess(key, gs[0].upi) {
      assert Add(gs, key, e)[1..] == gs;
    } else {
      AddCounts(gs[1..], key, e);
      assert Add(gs, key, e)[1..] == Add(gs[1..], key, e);
    }
  }

  /** Every row with an identifier is listed in exactly one group, and the
      groups' totals are the totals of those rows. */
  lemma {:induction false} GroupByTotals(es: seq<Entry>)
    ensures TransactionCount(GroupBy(es)) == |Identified(es)|
    ensures GroupsDebited(GroupBy(es)) == SumDebit(Identified(es))
    ensures GroupsCredited(GroupBy(es)) == SumCredit(Identified(es))
  {
    if es != [] {
      var es', e := es[..|es| - 1], es[|es| - 1];
      GroupByTotals(es');
      if e.upi.Some? {
        assert GroupBy(es) == Add(GroupBy(es'), e.upi.value, e);
        assert Identified(es) == Identified(es') + [e];
        AddCounts(GroupBy(es'), e.upi.value, e);
        AppendSums(Identified(es'), e);
      } else {
        assert GroupBy(es) == GroupBy(es');
        assert Identified(es) == Identified(es');
      }
    }
  }

  /** The column sums split into the rows with and without an identifier. */
  lemma {:induction false} SumsPartition(es: seq<Entry>)
    ensures SumDebit(es) == SumDebit(Identified(es)) + SumDebit(Unidentified(es))
    ensures SumCredit(es) == SumCredit(Identified(es)) + SumCredit(Unidentified(es))
  {
    if es != [] {
      var es', e := es[..|es| - 1], es[|es| - 1];
      SumsPartition(es');
      assert SumDebit(es) == SumDebit(es') + e.debit;
      assert SumCredit(es) == SumCredit(es') + e.credit;
      if e.upi.Some? {
        assert Identified(es) == Identified(es') + [e];
        assert Unidentified(es) == Unidentified(es');
        AppendSums(Identified(es'), e);
      } else {
        assert Unidentified(es) == Unidentified(es') + [e];
        assert Identified(es) == Identified(es');
        AppendSums(Unidentified(es'), e);
      }
    }
  }
}
