/**
 * What `generateReport` puts on screen, as values: the sales shown (all of
 * them, or only those not excluded), one per trimmed (contact, account) pair
 * (the latest), sorted by the upper-cased account nickname, each paired with
 * the action note the selector kept for its contact and user.
 */
module Report {
  import opened Wrappers
  import opened Text
  import opened Records
  import opened Dedup
  import opened Selector
  import opened Sorting

  /** The sales the report considers: every sale when excluded ones are shown,
      otherwise the ones not marked excluded, in their original order. */
  function Visible(sales: seq<Sale>, showExcluded: bool): (r: seq<Sale>)
    ensures forall s :: s in r <==> s in sales && (showExcluded || !s.excluded)
    ensures |r| <= |sales|
    decreases |sales|
  {
    if showExcluded || sales == [] then sales
    else
      var rest, s := Visible(sales[..|sales| - 1], false), sales[|sales| - 1];
      assert sales == sales[..|sales| - 1] + [s];
      if s.excluded then rest else rest + [s]
  }

  /** The filter keeps the order: filtering a concatenation filters each part. */
  lemma {:induction false} VisibleAppend(a: seq<Sale>, b: seq<Sale>, showExcluded: bool)
    ensures Visible(a + b, showExcluded) == Visible(a, showExcluded) + Visible(b, showExcluded)
    decreases |b|
  {
    if showExcluded || b == [] {
      assert a + b == a || showExcluded;
    } else {
      var b', y := b[..|b| - 1], b[|b| - 1];
      assert (a + b)[..|a + b| - 1] == a + b';
      VisibleAppend(a, b', false);
    }
  }

  /** The sort key: the account nickname in upper case. */
  function AccountKey(s: Sale): string {
    Upper(s.accountNickname)
  }

  /** `uniqueSalesMap`: the latest visible sale per trimmed (contact, account). */
  function UniqueSales(sales: seq<Sale>, showExcluded: bool): seq<Entry> {
    Latest(ByContactAccount, Visible(sales, showExcluded))
  }

  /** `Array.from(map.values())`. */
  function Values(t: seq<Entry>): (r: seq<Sale>)
    ensures |r| == |t| && forall q :: 0 <= q < |t| ==> r[q] == t[q].sale
  {
    seq(|t|, q requires 0 <= q < |t| => t[q].sale)
  }

  /** `uniqueSalesArray` once sorted: the sales the report lists, in order. */
  function ReportSales(sales: seq<Sale>, showExcluded: bool): seq<Sale> {
    SortBy(Values(UniqueSales(sales, showExcluded)), AccountKey)
  }

  /** One report row: the sale and the action note matched to it, if any. */
  datatype Row = Row(sale: Sale, note: Option<ActionNote>)

  /** The note the selector kept under the sale's contact and user. */
  function NoteFor(selected: map<string, ActionNote>, s: Sale): Option<ActionNote> {
    var k := OwnerKey(s.contact, s.userRef);
    if k in selected then Some(selected[k]) else None
  }

  /** The rows of the report, in display order; row `i` is `row-i`. */
  function Rows(sales: seq<Sale>, notes: seq<ActionNote>, today: int, showExcluded: bool): (r: seq<Row>)
    ensures |r| == |ReportSales(sales, showExcluded)|
    ensures forall i :: 0 <= i < |r| ==> r[i].sale == ReportSales(sales, showExcluded)[i]
  {
    var ss, m := ReportSales(sales, showExcluded), Select(notes, today);
    seq(|ss|, i requires 0 <= i < |ss| => Row(ss[i], NoteFor(m, ss[i])))
  }

  /** `generateReport`'s pipeline as the source runs it: the note selector pass,
      the filter, the dedup pass, the sort, and the row objects built in a
      `forEach`. */
  method BuildRows(sales: seq<Sale>, notes: seq<ActionNote>, today: int, showExcluded: bool) returns (rows: seq<Row>)
    ensures rows == Rows(sales, notes, today, showExcluded)
  {
    var selected := SelectActionNotes(notes, today);
    var visible := Visible(sales, showExcluded);
    var table := KeepLatest(ByContactAccount, visible);
    var listed := SortBy(Values(table), AccountKey);
    rows := [];
    var i := 0;
    while i < |listed|
      invariant 0 <= i <= |listed| && |rows| == i
      invariant forall j :: 0 <= j < i ==> rows[j] == Row(listed[j], NoteFor(selected, listed[j]))
    {
      rows := rows + [Row(listed[i], NoteFor(selected, listed[i]))];
      i := i + 1;
    }
  }

  /** Each listed sale is some entry of the map. */
  lemma ListedIsEntry(sales: seq<Sale>, showExcluded: bool, i: nat) returns (q: nat)
    requires i < |ReportSales(sales, showExcluded)|
    ensures q < |UniqueSales(sales, showExcluded)|
    ensures UniqueSales(sales, showExcluded)[q].sale == ReportSales(sales, showExcluded)[i]
  {
    var vals := Values(UniqueSales(sales, showExcluded));
    var ss := ReportSales(sales, showExcluded);
    SortByPermutes(vals, AccountKey);
    assert ss[i] in multiset(vals);
    q :| 0 <= q < |vals| && vals[q] == ss[i];
  }

  /** Rows come in ascending order of the upper-cased account nickname, and
      rows with the same key keep the order in which their keys were first
      met (the sort is stable). */
  lemma RowsSorted(sales: seq<Sale>, notes: seq<ActionNote>, today: int, showExcluded: bool)
    ensures var r := Rows(sales, notes, today, showExcluded);
      forall i, j :: 0 <= i < j < |r| ==> Below(AccountKey(r[i].sale), AccountKey(r[j].sale))
    ensures forall c :: KeyRun(ReportSales(sales, showExcluded), AccountKey, c) ==
                        KeyRun(Values(UniqueSales(sales, showExcluded)), AccountKey, c)
  {
    var vals := Values(UniqueSales(sales, showExcluded));
    SortBySorted(vals, AccountKey);
    forall c ensures KeyRun(SortBy(vals, AccountKey), AccountKey, c) == KeyRun(vals, AccountKey, c) {
      SortByStable(vals, AccountKey, c);
    }
  }

  /** `s` is the sale the fold over the visible sales `vs` keeps for its
      (contact, account) key: no visible sale with that key is strictly later,
      and on equal dates the first one stays. */
  ghost predicate KeptFor(vs: seq<Sale>, s: Sale) {
    Eligible(ByContactAccount, s) &&
    exists j :: IsKept(Tagged(ByContactAccount, vs), KeyOf(ByContactAccount, s), j) && vs[j] == s
  }

  /** The listed sale at `i` is visible and is the one the fold keeps. */
  lemma ListedIsLatest(sales: seq<Sale>, showExcluded: bool, i: nat)
    requires i < |ReportSales(sales, showExcluded)|
    ensures var s := ReportSales(sales, showExcluded)[i];
      s in sales && (showExcluded || !s.excluded) && KeptFor(Visible(sales, showExcluded), s)
  {
    var vs, s := Visible(sales, showExcluded), ReportSales(sales, showExcluded)[i];
    var q := ListedIsEntry(sales, showExcluded, i);
    var e := UniqueSales(sales, showExcluded)[q];
    EntryOwnsSale(ByContactAccount, vs, q);
    assert e.sale == s && e.key == KeyOf(ByContactAccount, s);
    var j :| IsKept(Tagged(ByContactAccount, vs), e.key, j) && vs[j] == e.sale;
    assert vs[j] in vs;
  }

  /** Every row shows a visible sale, the one the fold keeps for its key. */
  lemma RowsAreLatest(sales: seq<Sale>, notes: seq<ActionNote>, today: int, showExcluded: bool)
    ensures var r := Rows(sales, notes, today, showExcluded);
      forall i :: 0 <= i < |r| ==>
        r[i].sale in sales && (showExcluded || !r[i].sale.excluded) &&
        KeptFor(Visible(sales, showExcluded), r[i].sale)
  {
    var r := Rows(sales, notes, today, showExcluded);
    forall i | 0 <= i < |r| {
      ListedIsLatest(sales, showExcluded, i);
    }
  }

  /** No two rows share a (contact, account) key. */
  lemma RowsOnePerKey(sales: seq<Sale>, notes: seq<ActionNote>, today: int, showExcluded: bool)
    ensures var r := Rows(sales, notes, today, showExcluded);
      forall i, j :: 0 <= i < j < |r| ==>
        KeyOf(ByContactAccount, r[i].sale) != KeyOf(ByContactAccount, r[j].sale)
  {
    var vs, t := Visible(sales, showExcluded), UniqueSales(sales, showExcluded);
    var vals, ss := Values(t), ReportSales(sales, showExcluded);
    FoldCharacterized(Tagged(ByContactAccount, vs));
    forall q, q' | 0 <= q < q' < |vals| ensures vals[q] != vals[q'] {
      EntryOwnsSale(ByContactAccount, vs, q);
      EntryOwnsSale(ByContactAccount, vs, q');
    }
    SortByPermutes(vals, AccountKey);
    NoDuplicatesPermuted(vals, ss);
    forall i, j | 0 <= i < j < |ss|
      ensures KeyOf(ByContactAccount, ss[i]) != KeyOf(ByContactAccount, ss[j])
    {
      var q := ListedIsEntry(sales, showExcluded, i);
      var q' := ListedIsEntry(sales, showExcluded, j);
      EntryOwnsSale(ByContactAccount, vs, q);
      EntryOwnsSale(ByContactAccount, vs, q');
      assert q != q';
    }
  }

  /** Every visible sale that takes part in the fold has its key on some row. */
  lemma RowsCoverKeys(sales: seq<Sale>, notes: seq<ActionNote>, today: int, showExcluded: bool)
    ensures var r := Rows(sales, notes, today, showExcluded);
      forall s :: s in sales && (showExcluded || !s.excluded) && Eligible(ByContactAccount, s) ==>
        exists i :: 0 <= i < |r| && KeyOf(ByContactAccount, r[i].sale) == KeyOf(ByContactAccount, s)
  {
    var r, vs := Rows(sales, notes, today, showExcluded), Visible(sales, showExcluded);
    var items, t := Tagged(ByContactAccount, vs), UniqueSales(sales, showExcluded);
    var vals, ss := Values(t), ReportSales(sales, showExcluded);
    FoldCharacterized(items);
    SortByPermutes(vals, AccountKey);
    forall s | s in sales && (showExcluded || !s.excluded) && Eligible(ByContactAccount, s)
      ensures exists i :: 0 <= i < |r| && KeyOf(ByContactAccount, r[i].sale) == KeyOf(ByContactAccount, s)
    {
      var k := KeyOf(ByContactAccount, s);
      var j :| 0 <= j < |vs| && vs[j] == s;
      assert items[j].key == Some(k);
      assert First(items, k) <= j;
      var q := Find(t, k).value;
      EntryOwnsSale(ByContactAccount, vs, q);
      assert vals[q] in multiset(ss);
      var i :| 0 <= i < |ss| && ss[i] == vals[q];
      assert r[i].sale == ss[i];
    }
  }

  /** The note on a row is the one the selector kept for the sale's contact and
      user (compared in lower case); a row has no note exactly when no open
      note is filed under that key. */
  lemma RowNotes(sales: seq<Sale>, notes: seq<ActionNote>, today: int, showExcluded: bool)
    ensures var r := Rows(sales, notes, today, showExcluded);
      forall i :: 0 <= i < |r| ==>
        var k := OwnerKey(r[i].sale.contact, r[i].sale.userRef);
        && (r[i].note.None? <==> !Filed(notes, k))
        && (r[i].note.Some? ==> exists j :: IsSelected(notes, k, j) && r[i].note.value == notes[j])
  {
    var r := Rows(sales, notes, today, showExcluded);
    forall i | 0 <= i < |r|
      ensures var k := OwnerKey(r[i].sale.contact, r[i].sale.userRef);
        && (r[i].note.None? <==> !Filed(notes, k))
        && (r[i].note.Some? ==> exists j :: IsSelected(notes, k, j) && r[i].note.value == notes[j])
    {
      SelectedAt(notes, today, OwnerKey(r[i].sale.contact, r[i].sale.userRef));
    }
  }
}
