/**
 * The data side of the Exclude button: which rows and sales belong to the
 * clicked row's contact and user, how their `ANExclude` flag is set, and the
 * list of excluded sale ids kept for tracking.
 */
module Exclusion {
  import opened Wrappers
  import opened Text
  import opened Records
  import opened Dedup
  import opened Report

  /** A stored sale belongs to the clicked row's contact and user: both of its
      fields are present and equal to the row's, ignoring case. The two
      fields are compared one by one, not through the joined note key. */
  predicate SameOwner(s: Sale, contact: string, userRef: string) {
    s.contact != "" && s.userRef != "" &&
    Lower(s.contact) == Lower(contact) && Lower(s.userRef) == Lower(userRef)
  }

  /** The sales after the click set `ANExclude` to `v` on every sale of the
      owner: only that flag changes, and only on the owner's sales. */
  function MarkSales(sales: seq<Sale>, contact: string, userRef: string, v: bool): (r: seq<Sale>)
    ensures |r| == |sales|
    ensures forall i :: 0 <= i < |sales| ==>
              r[i].excluded == (if SameOwner(sales[i], contact, userRef) then v else sales[i].excluded) &&
              r[i].(excluded := sales[i].excluded) == sales[i]
  {
    seq(|sales|, i requires 0 <= i < |sales| =>
      if SameOwner(sales[i], contact, userRef) then sales[i].(excluded := v) else sales[i])
  }

  /** The `forEach` over `currentSalesData.value` that updates each matching sale. */
  method MarkMatchingSales(sales: seq<Sale>, contact: string, userRef: string, v: bool) returns (r: seq<Sale>)
    ensures r == MarkSales(sales, contact, userRef, v)
  {
    r := sales;
    var i := 0;
    while i < |r|
      invariant 0 <= i <= |r| == |sales|
      invariant forall j :: 0 <= j < i ==> r[j] == MarkSales(sales, contact, userRef, v)[j]
      invariant forall j :: i <= j < |r| ==> r[j] == sales[j]
    {
      if r[i].contact != "" && r[i].userRef != "" &&
         Lower(r[i].contact) == Lower(contact) && Lower(r[i].userRef) == Lower(userRef) {
        r := r[i := r[i].(excluded := v)];
      }
      i := i + 1;
    }
  }

  /** Setting the flag twice leaves only the second setting. */
  lemma MarkSalesLastWins(sales: seq<Sale>, contact: string, userRef: string, v: bool, w: bool)
    ensures MarkSales(MarkSales(sales, contact, userRef, v), contact, userRef, w) ==
            MarkSales(sales, contact, userRef, w)
  {
    var a := MarkSales(MarkSales(sales, contact, userRef, v), contact, userRef, w);
    var b := MarkSales(sales, contact, userRef, w);
    forall i | 0 <= i < |sales| ensures a[i] == b[i] {
      assert MarkSales(sales, contact, userRef, v)[i].(excluded := sales[i].excluded) == sales[i];
    }
  }

  /** Excluding an owner whose sales were all included and then including it
      again gives back the sales as they were. */
  lemma ExcludeThenInclude(sales: seq<Sale>, contact: string, userRef: string)
    requires forall s :: s in sales && SameOwner(s, contact, userRef) ==> !s.excluded
    ensures MarkSales(MarkSales(sales, contact, userRef, true), contact, userRef, false) == sales
  {
    MarkSalesLastWins(sales, contact, userRef, true, false);
    var b := MarkSales(sales, contact, userRef, false);
    forall i | 0 <= i < |sales| ensures b[i] == sales[i] {
      assert sales[i] in sales;
      assert b[i].(excluded := sales[i].excluded) == sales[i];
    }
  }

  /** Once an owner is excluded, a report that hides excluded sales shows no
      row of that owner. */
  lemma ExcludedOwnerHidden(sales: seq<Sale>, notes: seq<ActionNote>, today: int, contact: string, userRef: string)
    ensures var r := Rows(MarkSales(sales, contact, userRef, true), notes, today, false);
      forall i :: 0 <= i < |r| ==> !SameOwner(r[i].sale, contact, userRef)
  {
    var marked := MarkSales(sales, contact, userRef, true);
    var r := Rows(marked, notes, today, false);
    RowsAreLatest(marked, notes, today, false);
    forall i | 0 <= i < |r| ensures !SameOwner(r[i].sale, contact, userRef) {
      var j :| 0 <= j < |marked| && marked[j] == r[i].sale;
      assert marked[j].(excluded := sales[j].excluded) == sales[j];
    }
  }

  /** Once an owner is included again, each of its sales that takes part in
      the report has its (contact, account) key on some row, whether or not
      excluded sales are shown. */
  lemma IncludedOwnerShown(sales: seq<Sale>, notes: seq<ActionNote>, today: int, showExcluded: bool,
                           contact: string, userRef: string)
    ensures var r := Rows(MarkSales(sales, contact, userRef, false), notes, today, showExcluded);
      forall s :: s in sales && SameOwner(s, contact, userRef) && Eligible(ByContactAccount, s) ==>
        exists i :: 0 <= i < |r| && KeyOf(ByContactAccount, r[i].sale) == KeyOf(ByContactAccount, s)
  {
    var marked := MarkSales(sales, contact, userRef, false);
    var r := Rows(marked, notes, today, showExcluded);
    RowsCoverKeys(marked, notes, today, showExcluded);
    forall s | s in sales && SameOwner(s, contact, userRef) && Eligible(ByContactAccount, s)
      ensures exists i :: 0 <= i < |r| && KeyOf(ByContactAccount, r[i].sale) == KeyOf(ByContactAccount, s)
    {
      var j :| 0 <= j < |sales| && sales[j] == s;
      assert marked[j].(excluded := sales[j].excluded) == sales[j];
      assert marked[j] in marked;
    }
  }

  /** The stored rows of the clicked row's owner (`matchingRowIds`). */
  function MatchingRows(rows: map<nat, Row>, contact: string, userRef: string): set<nat> {
    set i | i in rows && SameOwner(rows[i].sale, contact, userRef)
  }

  /** The loop over `Object.entries(reportRowData)` collecting `matchingRowIds`. */
  method FindMatchingRows(rows: map<nat, Row>, contact: string, userRef: string) returns (ids: set<nat>)
    ensures ids == MatchingRows(rows, contact, userRef)
  {
    ids := {};
    var todo := rows.Keys;
    while todo != {}
      invariant todo <= rows.Keys
      invariant ids == MatchingRows(rows, contact, userRef) - todo
      decreases todo
    {
      var i :| i in todo;
      var stored := rows[i].sale;
      if stored.contact != "" && stored.userRef != "" &&
         Lower(stored.contact) == Lower(contact) && Lower(stored.userRef) == Lower(userRef) {
        ids := ids + {i};
      }
      todo := todo - {i};
    }
  }

  /** The stored rows after the click: the owner's rows get `ANExclude := v`,
      everything else, notes included, stays as it was. */
  function MarkRows(rows: map<nat, Row>, contact: string, userRef: string, v: bool): (r: map<nat, Row>)
    ensures r.Keys == rows.Keys
    ensures forall i :: i in r ==>
              r[i].note == rows[i].note &&
              r[i].sale.excluded == (if i in MatchingRows(rows, contact, userRef) then v else rows[i].sale.excluded) &&
              r[i].sale.(excluded := rows[i].sale.excluded) == rows[i].sale
  {
    map i | i in rows :: if SameOwner(rows[i].sale, contact, userRef) then Row(rows[i].sale.(excluded := v), rows[i].note) else rows[i]
  }

  /** `excludedSaleIds.filter(id => id !== saleId)`. */
  function Without(ids: seq<string>, id: string): (r: seq<string>)
    ensures forall x :: x in r <==> x in ids && x != id
    ensures NoDuplicates(ids) ==> NoDuplicates(r)
    ensures id !in ids ==> r == ids
    decreases |ids|
  {
    if ids == [] then []
    else
      var rest := Without(ids[1..], id);
      assert ids == [ids[0]] + ids[1..];
      assert NoDuplicates(ids) ==> NoDuplicates(ids[1..]) && ids[0] !in ids[1..] by {
        if NoDuplicates(ids) {
          forall j | 0 <= j < |ids[1..]| ensures ids[1..][j] != ids[0] {
            assert ids[1..][j] == ids[j + 1];
          }
        }
      }
      if ids[0] == id then rest
      else
        assert NoDuplicates(ids) ==> NoDuplicates([ids[0]] + rest) by {
          if NoDuplicates(ids) {
            forall a, b | 0 <= a < b < |[ids[0]] + rest| ensures ([ids[0]] + rest)[a] != ([ids[0]] + rest)[b] {
              if a == 0 {
                assert ([ids[0]] + rest)[b] == rest[b - 1];
                assert rest[b - 1] in rest;
              }
            }
          }
        }
        [ids[0]] + rest
  }

  /** `handleExcludeClick`'s bookkeeping: a sale without an id changes nothing;
      otherwise excluding adds the id once and including removes it. */
  function Track(ids: seq<string>, id: string, v: bool): (r: seq<string>)
    ensures id == "" ==> r == ids
    ensures id != "" ==> (id in r <==> v)
    ensures forall x :: x != id ==> (x in r <==> x in ids)
    ensures NoDuplicates(ids) ==> NoDuplicates(r)
  {
    if id == "" then ids
    else if v then (if id in ids then ids else ids + [id])
    else Without(ids, id)
  }

  /** Excluding a sale and including it again leaves the list as it was. */
  lemma TrackRoundTrip(ids: seq<string>, id: string)
    requires id !in ids
    ensures Track(Track(ids, id, true), id, false) == ids
  {
    if id != "" {
      WithoutLast(ids, id);
    }
  }

  lemma {:induction false} WithoutLast(ids: seq<string>, id: string)
    requires id !in ids
    ensures Without(ids + [id], id) == ids
    decreases |ids|
  {
    if ids == [] {
      assert Without([id][1..], id) == [];
    } else {
      assert (ids + [id])[1..] == ids[1..] + [id];
      WithoutLast(ids[1..], id);
    }
  }

  /** The stored rows after `removeReportRow(saleId)`: every row of that sale
      is gone and every other row is untouched. */
  function PurgeRows(rows: map<nat, Row>, saleId: string): (r: map<nat, Row>)
    ensures forall i :: i in r <==> i in rows && rows[i].sale.id != saleId
    ensures forall i :: i in r ==> r[i] == rows[i]
  {
    map i | i in rows && rows[i].sale.id != saleId :: rows[i]
  }
}
