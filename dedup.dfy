/**
 * "Keep the latest sale per key": the one-pass Map fold used twice by the report,
 * by trimmed contact name in `extractUniqueContacts` and by trimmed
 * (contact, account) in `generateReport`. A JavaScript `Map` is an association
 * list here: `set` on a present key overwrites in place and keeps its position,
 * on a new key appends.
 */
module Dedup {
  import opened Wrappers
  import opened Text
  import opened Records

  /** Which of the two folds is meant. */
  datatype Policy = ByContact | ByContactAccount

  /** One map entry: the key and the sale stored under it. */
  datatype Entry = Entry(key: string, sale: Sale)

  /** Which sales take part: `extractUniqueContacts` needs a non-blank
      `Contact` and an `_ID`; the report needs a non-empty `Contact` and
      `AccountNickname` (not trimmed). */
  predicate Eligible(p: Policy, s: Sale) {
    match p
    case ByContact => Trim(s.contact) != "" && s.id != ""
    case ByContactAccount => s.contact != "" && s.accountNickname != ""
  }

  /** The Map key of a sale. */
  function KeyOf(p: Policy, s: Sale): string {
    match p
    case ByContact => Trim(s.contact)
    case ByContactAccount => Trim(s.contact) + "-" + Trim(s.accountNickname)
  }

  /** A sale together with the key it is filed under, or `None` when the
      `forEach` body returns early for it. */
  datatype Item = Item(key: Option<string>, sale: Sale)

  function Tag(p: Policy, s: Sale): (x: Item)
    ensures x.sale == s
    ensures x.key.Some? <==> Eligible(p, s)
  {
    Item(if Eligible(p, s) then Some(KeyOf(p, s)) else None, s)
  }

  /** The sales as the fold sees them. */
  function Tagged(p: Policy, sales: seq<Sale>): (r: seq<Item>)
    ensures |r| == |sales| && forall i :: 0 <= i < |sales| ==> r[i] == Tag(p, sales[i])
  {
    seq(|sales|, i requires 0 <= i < |sales| => Tag(p, sales[i]))
  }

  predicate DistinctKeys(t: seq<Entry>) {
    forall i, j :: 0 <= i < j < |t| ==> t[i].key != t[j].key
  }

  /** `Map.get`: the position of key `k`, if any. */
  function Find(t: seq<Entry>, k: string): (r: Option<nat>)
    ensures r.Some? ==> r.value < |t| && t[r.value].key == k
    ensures r.None? ==> forall i :: 0 <= i < |t| ==> t[i].key != k
  {
    if t == [] then None
    else if t[0].key == k then Some(0)
    else match Find(t[1..], k)
      case None => None
      case Some(i) => Some(i + 1)
  }

  /** The body of the `forEach`: skip an ineligible sale, insert a sale with a new
      key, and replace the stored sale only by a strictly later one. */
  function Step(t: seq<Entry>, x: Item): seq<Entry> {
    match x.key
    case None => t
    case Some(k) =>
      match Find(t, k)
      case None => t + [Entry(k, x.sale)]
      case Some(i) =>
        if Later(x.sale.date, t[i].sale.date) then t[i := Entry(k, x.sale)] else t
  }

  /** The map after the whole pass, in insertion order. */
  function Fold(items: seq<Item>): seq<Entry>
    decreases |items|
  {
    if items == [] then []
    else Step(Fold(items[..|items| - 1]), items[|items| - 1])
  }

  /** The map the source builds from `sales` under policy `p`. */
  function Latest(p: Policy, sales: seq<Sale>): seq<Entry> {
    Fold(Tagged(p, sales))
  }

  /** The position of the first item filed under `k`, or `|items|` if none is. */
  function First(items: seq<Item>, k: string): (r: nat)
    ensures r <= |items|
    ensures r < |items| ==> items[r].key == Some(k)
    ensures forall j :: 0 <= j < r ==> items[j].key != Some(k)
    decreases |items|
  {
    if items == [] then 0
    else
      var n := |items| - 1;
      var f := First(items[..n], k);
      assert forall j :: 0 <= j < n ==> items[..n][j] == items[j];
      if f < n then f else if items[n].key == Some(k) then n else n + 1
  }

  /** `items[i]` holds the sale the fold keeps under `k`: it is filed under `k`;
      no item filed under `k` is strictly later; every earlier one is undated or
      strictly earlier (so on equal dates the first seen stays); and once the
      first sale under `k` is undated it is never replaced. */
  ghost predicate IsKept(items: seq<Item>, k: string, i: int) {
    && 0 <= i < |items| && items[i].key == Some(k)
    && (forall j :: 0 <= j < |items| && items[j].key == Some(k) ==>
          !Later(items[j].sale.date, items[i].sale.date))
    && (forall j :: 0 <= j < i && items[j].key == Some(k) ==>
          items[i].sale.date.Some? &&
          (items[j].sale.date.None? || items[j].sale.date.value < items[i].sale.date.value))
    && (var f := First(items, k); f == i || (f < |items| && items[f].sale.date.Some?))
  }

  /** The keys of `t` are those some item carries. */
  ghost predicate KeysPresent(items: seq<Item>, t: seq<Entry>) {
    forall k :: Find(t, k).Some? <==> First(items, k) < |items|
  }

  /** The entries stand in order of their key's first appearance. */
  ghost predicate KeysOrdered(items: seq<Item>, t: seq<Entry>) {
    forall q, q' :: 0 <= q < q' < |t| ==> First(items, t[q].key) < First(items, t[q'].key)
  }

  /** Each entry holds the sale `IsKept` describes for its key. */
  ghost predicate ValuesKept(items: seq<Item>, t: seq<Entry>) {
    forall q :: 0 <= q < |t| ==> exists i :: IsKept(items, t[q].key, i) && items[i].sale == t[q].sale
  }

  /** What the fold computes, entry by entry. */
  ghost predicate Characterizes(items: seq<Item>, t: seq<Entry>) {
    DistinctKeys(t) && KeysPresent(items, t) && KeysOrdered(items, t) && ValuesKept(items, t)
  }

  lemma FirstSnoc(pre: seq<Item>, x: Item, k: string)
    ensures First(pre + [x], k) ==
            if First(pre, k) < |pre| then First(pre, k)
            else if x.key == Some(k) then |pre| else |pre| + 1
  {
    assert (pre + [x])[..|pre|] == pre;
  }

  /** An item under another key leaves the kept sale of `k` in place. */
  lemma IsKeptSnocOther(pre: seq<Item>, x: Item, k: string, i: int)
    requires IsKept(pre, k, i) && x.key != Some(k)
    ensures IsKept(pre + [x], k, i)
  {
    var items := pre + [x];
    FirstSnoc(pre, x, k);
    assert forall j :: 0 <= j < |pre| ==> items[j] == pre[j];
  }

  /** An item under `k` that is not strictly later leaves the kept sale in place. */
  lemma IsKeptSnocKeep(pre: seq<Item>, x: Item, k: string, i: int)
    requires IsKept(pre, k, i) && x.key == Some(k) && !Later(x.sale.date, pre[i].sale.date)
    ensures IsKept(pre + [x], k, i)
  {
    var items := pre + [x];
    FirstSnoc(pre, x, k);
    assert forall j :: 0 <= j < |pre| ==> items[j] == pre[j];
  }

  /** A strictly later item under `k` becomes the kept one. */
  lemma IsKeptSnocReplace(pre: seq<Item>, x: Item, k: string, i: int)
    requires IsKept(pre, k, i) && x.key == Some(k) && Later(x.sale.date, pre[i].sale.date)
    ensures IsKept(pre + [x], k, |pre|)
  {
    var items := pre + [x];
    FirstSnoc(pre, x, k);
    assert forall j :: 0 <= j < |pre| ==> items[j] == pre[j];
    forall j | 0 <= j < |items| && items[j].key == Some(k)
      ensures !Later(items[j].sale.date, x.sale.date)
    {
      if j < |pre| {
        assert !Later(pre[j].sale.date, pre[i].sale.date);
      }
    }
  }

  /** An item under a new key is kept. */
  lemma IsKeptSnocNew(pre: seq<Item>, x: Item, k: string)
    requires First(pre, k) == |pre| && x.key == Some(k)
    ensures IsKept(pre + [x], k, |pre|)
  {
    var items := pre + [x];
    FirstSnoc(pre, x, k);
    assert forall j :: 0 <= j < |pre| ==> items[j] == pre[j];
  }

  /** Entries whose key `x` is not filed under keep their kept sale. */
  lemma OthersKept(pre: seq<Item>, x: Item, t0: seq<Entry>)
    requires ValuesKept(pre, t0)
    ensures forall q :: 0 <= q < |t0| && x.key != Some(t0[q].key) ==>
              exists i :: IsKept(pre + [x], t0[q].key, i) && (pre + [x])[i].sale == t0[q].sale
  {
    var items := pre + [x];
    forall q | 0 <= q < |t0| && x.key != Some(t0[q].key)
      ensures exists i :: IsKept(items, t0[q].key, i) && items[i].sale == t0[q].sale
    {
      var i :| IsKept(pre, t0[q].key, i) && pre[i].sale == t0[q].sale;
      IsKeptSnocOther(pre, x, t0[q].key, i);
      assert items[i] == pre[i];
    }
  }

  /** Keys already present in `t0` keep their first position when an item is appended. */
  lemma FirstOfPresentKeys(pre: seq<Item>, x: Item, t0: seq<Entry>)
    requires KeysPresent(pre, t0)
    ensures forall q :: 0 <= q < |t0| ==> First(pre + [x], t0[q].key) == First(pre, t0[q].key) < |pre|
  {
    forall q | 0 <= q < |t0|
      ensures First(pre + [x], t0[q].key) == First(pre, t0[q].key) < |pre|
    {
      assert Find(t0, t0[q].key).Some?;
      FirstSnoc(pre, x, t0[q].key);
    }
  }

  /** Appending an entry for a key not in `t0` keeps the keys distinct and the
      lookups of other keys. */
  lemma FindAppend(t0: seq<Entry>, e: Entry)
    requires DistinctKeys(t0) && Find(t0, e.key).None?
    ensures DistinctKeys(t0 + [e])
    ensures forall k' :: Find(t0 + [e], k').Some? <==> (Find(t0, k').Some? || k' == e.key)
  {
    var t := t0 + [e];
    forall k' ensures Find(t, k').Some? <==> (Find(t0, k').Some? || k' == e.key) {
      if Find(t, k').Some? && Find(t, k').value < |t0| {
        assert t0[Find(t, k').value].key == k';
      }
      if Find(t0, k').Some? {
        assert t[Find(t0, k').value].key == k';
      }
      if k' == e.key {
        assert t[|t0|].key == k';
      }
    }
  }

  /** Overwriting an entry with one of the same key keeps every lookup. */
  lemma FindOverwrite(t0: seq<Entry>, q0: nat, e: Entry)
    requires DistinctKeys(t0) && q0 < |t0| && t0[q0].key == e.key
    ensures DistinctKeys(t0[q0 := e])
    ensures forall k' :: Find(t0[q0 := e], k').Some? <==> Find(t0, k').Some?
  {
    var t := t0[q0 := e];
    assert forall q :: 0 <= q < |t| ==> t[q].key == t0[q].key;
    forall k' ensures Find(t, k').Some? <==> Find(t0, k').Some? {
      if Find(t, k').Some? { assert t0[Find(t, k').value].key == k'; }
      if Find(t0, k').Some? { assert t[Find(t0, k').value].key == k'; }
    }
  }

  /** One step keeps the keys distinct and exactly those of the items seen. */
  lemma PresentStep(pre: seq<Item>, x: Item, t0: seq<Entry>)
    requires DistinctKeys(t0) && KeysPresent(pre, t0)
    ensures DistinctKeys(Step(t0, x)) && KeysPresent(pre + [x], Step(t0, x))
  {
    var t := Step(t0, x);
    if x.key.Some? {
      var k := x.key.value;
      match Find(t0, k)
      case None => FindAppend(t0, Entry(k, x.sale));
      case Some(q0) => FindOverwrite(t0, q0, Entry(k, x.sale));
    }
    forall k' ensures Find(t, k').Some? <==> First(pre + [x], k') < |pre + [x]| {
      FirstSnoc(pre, x, k');
    }
  }

  /** One step keeps the entries in order of first appearance. */
  lemma OrderedStep(pre: seq<Item>, x: Item, t0: seq<Entry>)
    requires KeysPresent(pre, t0) && KeysOrdered(pre, t0)
    ensures KeysOrdered(pre + [x], Step(t0, x))
  {
    var items, t := pre + [x], Step(t0, x);
    FirstOfPresentKeys(pre, x, t0);
    if x.key.Some? && Find(t0, x.key.value).None? {
      var k := x.key.value;
      FirstSnoc(pre, x, k);
      assert t == t0 + [Entry(k, x.sale)];
      forall q, q' | 0 <= q < q' < |t|
        ensures First(items, t[q].key) < First(items, t[q'].key)
      {
        assert t[q] == t0[q];
        if q' < |t0| {
          assert t[q'] == t0[q'];
        }
      }
    } else {
      assert |t| == |t0| && forall q :: 0 <= q < |t| ==> t[q].key == t0[q].key;
    }
  }

  /** The index of the sale entry `q` holds. */
  lemma KeptAt(items: seq<Item>, t: seq<Entry>, q: nat) returns (i: nat)
    requires ValuesKept(items, t) && q < |t|
    ensures IsKept(items, t[q].key, i) && items[i].sale == t[q].sale
  {
    i :| IsKept(items, t[q].key, i) && items[i].sale == t[q].sale;
  }

  /** One step keeps each entry's sale the kept one, for an item that starts a
      new key. */
  lemma ValuesStepNew(pre: seq<Item>, x: Item, t0: seq<Entry>)
    requires KeysPresent(pre, t0) && ValuesKept(pre, t0)
    requires x.key.Some? && Find(t0, x.key.value).None?
    ensures ValuesKept(pre + [x], Step(t0, x))
  {
    var items, k := pre + [x], x.key.value;
    var t := t0 + [Entry(k, x.sale)];
    assert Step(t0, x) == t;
    OthersKept(pre, x, t0);
    IsKeptSnocNew(pre, x, k);
    assert items[|pre|] == x;
    forall q | 0 <= q < |t|
      ensures exists i :: IsKept(items, t[q].key, i) && items[i].sale == t[q].sale
    {
      if q < |t0| {
        assert t[q] == t0[q];
        assert t0[q].key != k;
      } else {
        assert IsKept(items, t[q].key, |pre|);
      }
    }
  }

  /** The same, for a strictly later item under a present key. */
  lemma ValuesStepReplace(pre: seq<Item>, x: Item, t0: seq<Entry>, q0: nat)
    requires DistinctKeys(t0) && ValuesKept(pre, t0)
    requires x.key.Some? && Find(t0, x.key.value) == Some(q0)
    requires Later(x.sale.date, t0[q0].sale.date)
    ensures ValuesKept(pre + [x], Step(t0, x))
  {
    var items, k := pre + [x], x.key.value;
    var t := t0[q0 := Entry(k, x.sale)];
    assert Step(t0, x) == t;
    OthersKept(pre, x, t0);
    assert forall q :: 0 <= q < |t0| && q != q0 ==> x.key != Some(t0[q].key);
    var i0 := KeptAt(pre, t0, q0);
    IsKeptSnocReplace(pre, x, k, i0);
    assert items[|pre|].sale == x.sale;
    UpdateKept(items, t0, q0, Entry(k, x.sale), |pre|);
  }

  lemma UpdateKept(items: seq<Item>, t0: seq<Entry>, q0: nat, e: Entry, i0: nat)
    requires q0 < |t0| && IsKept(items, e.key, i0) && items[i0].sale == e.sale
    requires forall q :: 0 <= q < |t0| && q != q0 ==>
               exists i :: IsKept(items, t0[q].key, i) && items[i].sale == t0[q].sale
    ensures ValuesKept(items, t0[q0 := e])
  {
    var t := t0[q0 := e];
    forall q | 0 <= q < |t|
      ensures exists i :: IsKept(items, t[q].key, i) && items[i].sale == t[q].sale
    {
      if q == q0 {
        assert IsKept(items, t[q].key, i0);
      } else {
        assert t[q] == t0[q];
      }
    }
  }

  /** The same, for an item under a present key that is not strictly later. */
  lemma ValuesStepKeep(pre: seq<Item>, x: Item, t0: seq<Entry>, q0: nat)
    requires DistinctKeys(t0) && ValuesKept(pre, t0)
    requires x.key.Some? && Find(t0, x.key.value) == Some(q0)
    requires !Later(x.sale.date, t0[q0].sale.date)
    ensures ValuesKept(pre + [x], Step(t0, x))
  {
    var items, k := pre + [x], x.key.value;
    assert Step(t0, x) == t0;
    OthersKept(pre, x, t0);
    var i0 := KeptAt(pre, t0, q0);
    IsKeptSnocKeep(pre, x, k, i0);
    assert items[i0] == pre[i0];
    forall q | 0 <= q < |t0|
      ensures exists i :: IsKept(items, t0[q].key, i) && items[i].sale == t0[q].sale
    {
      if q == q0 {
        assert IsKept(items, t0[q].key, i0);
      } else {
        assert t0[q].key != k;
      }
    }
  }

  /** The fold keeps one entry per key, in order of first appearance, each
      holding the sale `IsKept` describes. */
  lemma {:induction false} FoldCharacterized(items: seq<Item>)
    ensures Characterizes(items, Fold(items))
    decreases |items|
  {
    if items == [] {
      return;
    }
    var pre, x := items[..|items| - 1], items[|items| - 1];
    assert items == pre + [x];
    FoldCharacterized(pre);
    var t0 := Fold(pre);
    assert Fold(items) == Step(t0, x);
    PresentStep(pre, x, t0);
    OrderedStep(pre, x, t0);
    if x.key.None? {
      assert Step(t0, x) == t0;
      OthersKept(pre, x, t0);
    } else {
      match Find(t0, x.key.value)
      case None => ValuesStepNew(pre, x, t0);
      case Some(q0) =>
        if Later(x.sale.date, t0[q0].sale.date) {
          ValuesStepReplace(pre, x, t0, q0);
        } else {
          ValuesStepKeep(pre, x, t0, q0);
        }
    }
  }

  /** Every entry of the map is filed under the key of the sale it holds, and
      that sale is the one `IsKept` describes. */
  lemma EntryOwnsSale(p: Policy, sales: seq<Sale>, q: nat)
    requires q < |Latest(p, sales)|
    ensures var e := Latest(p, sales)[q];
      Eligible(p, e.sale) && e.key == KeyOf(p, e.sale) &&
      exists i :: IsKept(Tagged(p, sales), e.key, i) && sales[i] == e.sale
  {
    var items := Tagged(p, sales);
    FoldCharacterized(items);
    var i := KeptAt(items, Fold(items), q);
    assert items[i] == Tag(p, sales[i]);
  }

  /** `extractUniqueContacts`' record for one contact. */
  datatype Contact = Contact(
    name: string,
    account: string,
    accountId: string,
    saleId: string,
    date: Option<int>,
    status: string,
    user: string,
    description: string)

  /** The record built from the kept sale (`name` is its map key). */
  function ContactOf(s: Sale): Contact {
    Contact(Trim(s.contact), Trim(s.accountNickname), s.accountId, s.id, s.date, s.status, s.userRef, s.description)
  }

  /** The unique-contact list: the record of each entry of the fold by
      trimmed contact name, in map order. */
  function UniqueContacts(sales: seq<Sale>): seq<Contact> {
    var t := Latest(ByContact, sales);
    seq(|t|, q requires 0 <= q < |t| => ContactOf(t[q].sale))
  }

  /** One record per trimmed contact name that some eligible sale carries, in
      order of first appearance, each built from the sale `IsKept` picks for
      that name. */
  lemma UniqueContactsListed(sales: seq<Sale>)
    ensures var r := UniqueContacts(sales);
      && (forall q :: 0 <= q < |r| ==> r[q].name != "")
      && (forall q, q' :: 0 <= q < q' < |r| ==>
            First(Tagged(ByContact, sales), r[q].name) < First(Tagged(ByContact, sales), r[q'].name))
      && (forall j :: 0 <= j < |sales| && Eligible(ByContact, sales[j]) ==>
            exists q :: 0 <= q < |r| && r[q].name == Trim(sales[j].contact))
      && (forall q :: 0 <= q < |r| ==>
            exists i :: IsKept(Tagged(ByContact, sales), r[q].name, i) && r[q] == ContactOf(sales[i]))
  {
    var items := Tagged(ByContact, sales);
    var t := Fold(items);
    FoldCharacterized(items);
    var r := UniqueContacts(sales);
    NamesAreKeys(items, t, r);
    AllNamesListed(sales, items, t, r);
  }

  lemma NamesAreKeys(items: seq<Item>, t: seq<Entry>, r: seq<Contact>)
    requires (forall i :: 0 <= i < |items| ==> items[i] == Tag(ByContact, items[i].sale))
    requires ValuesKept(items, t) && |r| == |t|
    requires forall q :: 0 <= q < |t| ==> r[q] == ContactOf(t[q].sale)
    ensures forall q :: 0 <= q < |t| ==> r[q].name == t[q].key
    ensures forall q :: 0 <= q < |t| ==>
              exists i :: IsKept(items, r[q].name, i) && r[q] == ContactOf(items[i].sale)
  {
    forall q | 0 <= q < |t|
      ensures r[q].name == t[q].key && exists i :: IsKept(items, r[q].name, i) && r[q] == ContactOf(items[i].sale)
    {
      var i := KeptAt(items, t, q);
      assert items[i] == Tag(ByContact, items[i].sale);
      assert r[q].name == t[q].key;
      assert IsKept(items, r[q].name, i) && r[q] == ContactOf(items[i].sale);
    }
    assert forall q :: 0 <= q < |t| ==> exists i :: IsKept(items, r[q].name, i) && r[q] == ContactOf(items[i].sale);
  }

  lemma AllNamesListed(sales: seq<Sale>, items: seq<Item>, t: seq<Entry>, r: seq<Contact>)
    requires items == Tagged(ByContact, sales)
    requires KeysPresent(items, t) && |r| == |t|
    requires forall q :: 0 <= q < |t| ==> r[q].name == t[q].key
    ensures forall j :: 0 <= j < |sales| && Eligible(ByContact, sales[j]) ==>
              exists q :: 0 <= q < |r| && r[q].name == Trim(sales[j].contact)
  {
    forall j | 0 <= j < |sales| && Eligible(ByContact, sales[j])
      ensures exists q :: 0 <= q < |r| && r[q].name == Trim(sales[j].contact)
    {
      var k := Trim(sales[j].contact);
      assert items[j].key == Some(k);
      assert First(items, k) <= j;
      var q := Find(t, k).value;
      assert r[q].name == k;
    }
  }

  /** The fold as the source runs it: a `forEach` over the sales updating the map. */
  method KeepLatest(p: Policy, sales: seq<Sale>) returns (table: seq<Entry>)
    ensures table == Latest(p, sales)
  {
    table := [];
    var i := 0;
    ghost var items := Tagged(p, sales);
    while i < |sales|
      invariant 0 <= i <= |sales|
      invariant table == Fold(items[..i])
    {
      var sale := sales[i];
      assert items[..i + 1][..i] == items[..i];
      if Eligible(p, sale) {
        var key := KeyOf(p, sale);
        var existing := Find(table, key);
        if existing.None? {
          table := table + [Entry(key, sale)];
        } else if Later(sale.date, table[existing.value].sale.date) {
          table := table[existing.value := Entry(key, sale)];
        }
      }
      i := i + 1;
    }
    assert items[..i] == items;
  }

  /** `extractUniqueContacts` (the sales array already unwrapped). */
  method ExtractUniqueContacts(sales: seq<Sale>) returns (contacts: seq<Contact>)
    ensures contacts == UniqueContacts(sales)
  {
    var table := KeepLatest(ByContact, sales);
    contacts := [];
    var q := 0;
    while q < |table|
      invariant 0 <= q <= |table|
      invariant contacts == seq(q, j requires 0 <= j < q => ContactOf(table[j].sale))
    {
      contacts := contacts + [ContactOf(table[q].sale)];
      q := q + 1;
    }
  }
}
