/**
 * The page's state between the host's calls and the user's clicks: the
 * current sales and notes, the batch tracking, the stored row data behind
 * the report table, the live Exclude buttons and the list of excluded sale
 * ids. Each entry point of the page is a method that changes this state as
 * the source does, and each keeps `Valid`.
 */
module Session {
  import opened Wrappers
  import opened Text
  import opened Records
  import opened Dedup
  import opened Selector
  import opened Sorting
  import opened Batches
  import opened OData
  import opened Validation
  import opened Users
  import opened Report
  import opened Exclusion

  /** `reportRowData`: row `i` stands for `row-i`. */
  function RowMap(rows: seq<Row>): (m: map<nat, Row>)
    ensures forall i: nat :: i in m <==> i < |rows|
    ensures forall i :: 0 <= i < |rows| ==> m[i] == rows[i]
  {
    map i | 0 <= i < |rows| :: rows[i]
  }

  /** The Exclude buttons as rendered, each with its `data-excluded` flag. */
  function ButtonMap(rows: seq<Row>): (m: map<nat, bool>)
    ensures forall i: nat :: i in m <==> i < |rows|
    ensures forall i :: 0 <= i < |rows| ==> m[i] == rows[i].sale.excluded
  {
    map i | 0 <= i < |rows| :: rows[i].sale.excluded
  }

  /** The `forEach` that fills `reportRowData`, and the buttons rendered with
      the rows. */
  method StoreRows(rows: seq<Row>) returns (rd: map<nat, Row>, bt: map<nat, bool>)
    ensures rd == RowMap(rows) && bt == ButtonMap(rows)
  {
    rd, bt := map[], map[];
    var i := 0;
    while i < |rows|
      invariant 0 <= i <= |rows|
      invariant forall j: nat :: j in rd <==> j < i
      invariant forall j: nat :: j in bt <==> j < i
      invariant forall j :: 0 <= j < i ==> rd[j] == rows[j] && bt[j] == rows[j].sale.excluded
    {
      rd := rd[i := rows[i]];
      bt := bt[i := rows[i].sale.excluded];
      i := i + 1;
    }
  }

  /** The unique contacts of the sales and one action-note URL per contact,
      as `processSalesData` computes them. */
  method ContactQueryUrls(sales: seq<Sale>, userFilter: string) returns (urls: seq<string>)
    ensures urls == RequestUrls(UniqueContacts(sales), userFilter)
  {
    var contacts := ExtractUniqueContacts(sales);
    urls := ActionNoteUrls(contacts, userFilter);
  }

  /** The buttons left once those of the rows in `gone` are destroyed. */
  function Unbutton(buttons: map<nat, bool>, gone: set<nat>): map<nat, bool> {
    map i | i in buttons && i !in gone :: buttons[i]
  }

  /** Marking the owner's rows and destroying their buttons keeps every
      remaining button in step with its row. */
  lemma MarkKeepsButtons(rows: map<nat, Row>, buttons: map<nat, bool>, contact: string, userRef: string, v: bool)
    requires buttons.Keys <= rows.Keys
    requires forall i :: i in buttons ==> buttons[i] == rows[i].sale.excluded
    ensures var m, b := MarkRows(rows, contact, userRef, v), Unbutton(buttons, MatchingRows(rows, contact, userRef));
      forall i :: i in b ==> i in buttons && i in m && b[i] == m[i].sale.excluded
  {
  }

  /** What an exclude click sends to the host: the clicked row's data (after
      the flag update) and the new exclude value. */
  datatype ExcludeRequest = ExcludeRequest(row: Row, exclude: bool)

  class Session {
    /** The sales array of `currentSalesData`. */
    var sales: seq<Sale>
    /** `currentSalesData` is an OData object, whose `value` the exclude click updates. */
    var enveloped: bool
    /** `currentSalesData` is set. */
    var loaded: bool
    /** `currentActionNoteData`. */
    var notes: Option<seq<ActionNote>>
    /** `excludedSaleIds`. */
    var excludedIds: seq<string>
    /** `reportRowData`. */
    var rowData: map<nat, Row>
    /** The Exclude buttons still in the page, by row, with their `data-excluded` flag. */
    var buttons: map<nat, bool>
    /** The report table is what the content area shows. */
    var rendered: bool
    /** The "Show Excluded" checkbox. */
    var showExcluded: bool
    /** `actionNoteBatches`, `expectedBatchCount` and `receivedBatchCount` exist. */
    var collecting: bool
    /** Their values while they exist. */
    var collector: Collector
    /** The user drop-down's options after the placeholder. */
    var userOptions: seq<string>

    /** The excluded ids never repeat; neither do the user options; every live
        button belongs to a stored row and shows that row's exclude flag; buttons
        exist only while the table is shown; batches are only collected for
        loaded sales. */
    ghost predicate Valid()
      reads this
    {
      && NoDuplicates(excludedIds)
      && NoDuplicates(userOptions)
      && (forall i :: i in buttons ==> rendered && i in rowData && buttons[i] == rowData[i].sale.excluded)
      && (collecting ==> loaded)
    }

    /** The page as loaded: nothing fetched, nothing shown. */
    constructor (showExcluded: bool)
      ensures Valid()
      ensures sales == [] && !enveloped && !loaded && notes == None && excludedIds == []
      ensures rowData == map[] && buttons == map[] && !rendered && this.showExcluded == showExcluded
      ensures !collecting && userOptions == []
    {
      sales := [];
      enveloped := false;
      loaded := false;
      notes := None;
      excludedIds := [];
      rowData := map[];
      buttons := map[];
      rendered := false;
      this.showExcluded := showExcluded;
      collecting := false;
      collector := Collector([], 0, 0);
      userOptions := [];
    }

    /** The form's submit handler: the checks, then the loading state and a
        report request (the request itself is the host's business). */
    method SubmitForm(start: DateField, end: DateField, user: string) returns (r: Option<FormError>)
      requires Valid()
      modifies this
      ensures Valid()
      ensures r == ValidateForm(start, end, user)
      ensures r.None? ==> !rendered && buttons == map[]
      ensures r.Some? ==> rendered == old(rendered) && buttons == old(buttons)
      ensures sales == old(sales) && enveloped == old(enveloped) && loaded == old(loaded)
      ensures notes == old(notes) && excludedIds == old(excludedIds) && rowData == old(rowData)
      ensures showExcluded == old(showExcluded) && collecting == old(collecting)
      ensures collector == old(collector) && userOptions == old(userOptions)
    {
      r := ValidateForm(start, end, user);
      if r.None? {
        rendered := false;
        buttons := map[];
      }
    }

    /** `populateUserFilter`: unusable data leaves the drop-down as it was;
        otherwise it lists each trimmed, non-blank user once, in order. */
    method PopulateUserFilter(data: SalesData)
      requires Valid()
      modifies this
      ensures Valid()
      ensures data.Malformed? ==> userOptions == old(userOptions)
      ensures !data.Malformed? ==> forall u :: u in userOptions <==> Named(data.sales, u)
      ensures !data.Malformed? ==>
                forall i, j :: 0 <= i < j < |userOptions| ==> Below(userOptions[i], userOptions[j])
      ensures sales == old(sales) && enveloped == old(enveloped) && loaded == old(loaded)
      ensures notes == old(notes) && excludedIds == old(excludedIds) && rowData == old(rowData)
      ensures buttons == old(buttons) && rendered == old(rendered) && showExcluded == old(showExcluded)
      ensures collecting == old(collecting) && collector == old(collector)
    {
      if !data.Malformed? {
        userOptions := UniqueUsers(data.sales);
      }
    }

    /** `processSalesData`: no usable or an empty sales array shows an error
        and changes nothing else. Otherwise the excluded ids are reset, the
        sales kept, and one action-note URL per unique contact is sent, with
        the batch tracking started for that many answers. The notes of an
        earlier report are kept. */
    method ProcessSalesData(data: SalesData, userFilter: string) returns (urls: Option<seq<string>>)
      requires Valid()
      modifies this
      ensures Valid()
      ensures !rendered && buttons == map[]
      ensures rowData == old(rowData) && notes == old(notes)
      ensures showExcluded == old(showExcluded) && userOptions == old(userOptions)
      ensures data.Malformed? || data.sales == [] ==>
                && urls == None
                && sales == old(sales) && enveloped == old(enveloped) && loaded == old(loaded)
                && excludedIds == old(excludedIds)
                && collecting == old(collecting) && collector == old(collector)
      ensures !data.Malformed? && data.sales != [] ==>
                && urls == Some(RequestUrls(UniqueContacts(data.sales), userFilter))
                && sales == data.sales && enveloped == data.Enveloped? && loaded
                && excludedIds == []
                && collecting && collector == Collector([], |urls.value|, 0)
    {
      if data.Malformed? || data.sales == [] {
        rendered := false;
        buttons := map[];
        urls := None;
      } else {
        var built := LoadSales(data.sales, data.Enveloped?, userFilter);
        urls := Some(built);
      }
    }

    /** The part of `processSalesData` after the emptiness check. */
    method LoadSales(arr: seq<Sale>, isEnvelope: bool, userFilter: string) returns (urls: seq<string>)
      requires Valid()
      modifies this
      ensures Valid()
      ensures !rendered && buttons == map[]
      ensures rowData == old(rowData) && notes == old(notes)
      ensures showExcluded == old(showExcluded) && userOptions == old(userOptions)
      ensures urls == RequestUrls(UniqueContacts(arr), userFilter)
      ensures sales == arr && enveloped == isEnvelope && loaded && excludedIds == []
      ensures collecting && collector == Collector([], |urls|, 0)
    {
      urls := ContactQueryUrls(arr, userFilter);
      StartCollecting(arr, isEnvelope, |urls|);
    }

    /** The state once the sales are in and `expected` answers are awaited. */
    method StartCollecting(arr: seq<Sale>, isEnvelope: bool, expected: nat)
      requires Valid()
      modifies this
      ensures Valid()
      ensures !rendered && buttons == map[]
      ensures rowData == old(rowData) && notes == old(notes)
      ensures showExcluded == old(showExcluded) && userOptions == old(userOptions)
      ensures sales == arr && enveloped == isEnvelope && loaded && excludedIds == []
      ensures collecting && collector == Collector([], expected, 0)
    {
      excludedIds, rendered, buttons := [], false, map[];
      sales, enveloped, loaded := arr, isEnvelope, true;
      collecting, collector := true, Collector([], expected, 0);
    }

    /** `generateReport` with the current sales: the notes are recorded; with
        no sales loaded the source fails and shows an error; otherwise the
        table shows `Rows` and the stored row data and buttons follow it. */
    method GenerateReport(data: seq<ActionNote>, today: int)
      requires Valid()
      modifies this
      ensures Valid()
      ensures notes == Some(data)
      ensures !old(loaded) ==> !rendered && buttons == map[] && rowData == old(rowData)
      ensures old(loaded) ==>
                var rows := Rows(old(sales), data, today, old(showExcluded));
                rendered && rowData == RowMap(rows) && buttons == ButtonMap(rows)
      ensures sales == old(sales) && enveloped == old(enveloped) && loaded == old(loaded)
      ensures excludedIds == old(excludedIds) && showExcluded == old(showExcluded)
      ensures collecting == old(collecting) && collector == old(collector)
      ensures userOptions == old(userOptions)
    {
      notes := Some(data);
      if !loaded {
        rendered, buttons := false, map[];
        return;
      }
      var rows := BuildRows(sales, data, today, showExcluded);
      ShowRows(rows);
    }

    /** The table shows `rows`: their data is stored under their index and
        each gets an Exclude button carrying its flag. */
    method ShowRows(rows: seq<Row>)
      requires Valid()
      modifies this
      ensures Valid()
      ensures rendered && rowData == RowMap(rows) && buttons == ButtonMap(rows)
      ensures notes == old(notes) && sales == old(sales) && enveloped == old(enveloped) && loaded == old(loaded)
      ensures excludedIds == old(excludedIds) && showExcluded == old(showExcluded)
      ensures collecting == old(collecting) && collector == old(collector)
      ensures userOptions == old(userOptions)
    {
      var rd, bt := StoreRows(rows);
      rowData, buttons, rendered := rd, bt, true;
    }

    /** `processActionNoteData`, the single-answer path: the report from the
        notes given, with the current sales. */
    method ProcessActionNoteData(data: seq<ActionNote>, today: int)
      requires Valid()
      modifies this
      ensures Valid()
      ensures notes == Some(data)
      ensures !old(loaded) ==> !rendered && buttons == map[] && rowData == old(rowData)
      ensures old(loaded) ==>
                var rows := Rows(old(sales), data, today, old(showExcluded));
                rendered && rowData == RowMap(rows) && buttons == ButtonMap(rows)
      ensures sales == old(sales) && enveloped == old(enveloped) && loaded == old(loaded)
      ensures excludedIds == old(excludedIds) && showExcluded == old(showExcluded)
      ensures collecting == old(collecting) && collector == old(collector)
      ensures userOptions == old(userOptions)
    {
      GenerateReport(data, today);
    }

    /** `addActionNoteBatch`: outside a collection the source fails on the
        missing array and shows an error. Otherwise the answer is stored and
        counted and the progress shown; once the count reaches the number
        expected, the stored answers are merged, the report generated and the
        tracking dropped. */
    method AddActionNoteBatch(a: Arrival, today: int)
      requires Valid()
      modifies this
      ensures Valid()
      ensures sales == old(sales) && enveloped == old(enveloped) && loaded == old(loaded)
      ensures excludedIds == old(excludedIds) && showExcluded == old(showExcluded)
      ensures userOptions == old(userOptions)
      ensures !old(collecting) || Deliver(old(collector), a).Waiting? ==>
                && !rendered && buttons == map[] && rowData == old(rowData) && notes == old(notes)
                && collecting == old(collecting)
                && collector == (if old(collecting) then Deliver(old(collector), a).next else old(collector))
      ensures old(collecting) && Deliver(old(collector), a).Complete? ==>
                var rows := Rows(old(sales), Deliver(old(collector), a).notes, today, old(showExcluded));
                && !collecting && notes == Some(Deliver(old(collector), a).notes)
                && rendered && rowData == RowMap(rows) && buttons == ButtonMap(rows)
    {
      rendered := false;
      buttons := map[];
      if !collecting {
        return;
      }
      var slots := Store(collector.slots, a.index, a.payload);
      var received := collector.received + 1;
      if received >= collector.expected {
        var combined := CombineBatches(slots);
        collecting := false;
        GenerateReport(combined, today);
      } else {
        collector := Collector(slots, collector.expected, received);
      }
    }

    /** The "Show Excluded" checkbox changed: with sales and notes at hand the
        report is generated again under the new setting. */
    method ToggleShowExcluded(checked: bool, today: int)
      requires Valid()
      modifies this
      ensures Valid()
      ensures showExcluded == checked
      ensures old(loaded) && old(notes).Some? ==>
                var rows := Rows(old(sales), old(notes).value, today, checked);
                rendered && rowData == RowMap(rows) && buttons == ButtonMap(rows)
      ensures !(old(loaded) && old(notes).Some?) ==>
                rendered == old(rendered) && rowData == old(rowData) && buttons == old(buttons)
      ensures sales == old(sales) && enveloped == old(enveloped) && loaded == old(loaded)
      ensures notes == old(notes) && excludedIds == old(excludedIds)
      ensures collecting == old(collecting) && collector == old(collector)
      ensures userOptions == old(userOptions)
    {
      showExcluded := checked;
      if loaded && notes.Some? {
        GenerateReport(notes.value, today);
      }
    }

    /** A click on row `rowId`'s Exclude button. A row without a live button
        cannot be clicked. The new value is the opposite of the button's
        flag; excluding a row that carries an action note with an id is
        refused. Otherwise every stored row of the same contact and user gets
        the new flag and loses its button (the lookup that was meant to find
        the button finds the row and overwrites its cells), the sales of an
        OData envelope are updated alike, the clicked sale's id is tracked,
        the host is told, and with "Show Excluded" ticked the report is
        generated again. */
    method ExcludeClick(rowId: nat, today: int) returns (request: Option<ExcludeRequest>)
      requires Valid()
      modifies this
      ensures Valid()
      ensures loaded == old(loaded) && enveloped == old(enveloped) && notes == old(notes)
      ensures showExcluded == old(showExcluded) && collecting == old(collecting)
      ensures collector == old(collector) && userOptions == old(userOptions)
      ensures rowId !in old(buttons) ||
              (!old(buttons)[rowId] && old(rowData)[rowId].note.Some? && old(rowData)[rowId].note.value.id != "") ==>
                && request == None
                && sales == old(sales) && excludedIds == old(excludedIds)
                && rowData == old(rowData) && buttons == old(buttons) && rendered == old(rendered)
      ensures rowId in old(buttons) &&
              !(!old(buttons)[rowId] && old(rowData)[rowId].note.Some? && old(rowData)[rowId].note.value.id != "") ==>
                var v, row := !old(buttons)[rowId], old(rowData)[rowId];
                var contact, userRef := row.sale.contact, row.sale.userRef;
                var marked := MarkRows(old(rowData), contact, userRef, v);
                && request == Some(ExcludeRequest(marked[rowId], v))
                && excludedIds == Track(old(excludedIds), row.sale.id, v)
                && sales == (if old(enveloped) then MarkSales(old(sales), contact, userRef, v) else old(sales))
                && (old(showExcluded) && old(loaded) && old(notes).Some? ==>
                      var rows := Rows(sales, old(notes).value, today, true);
                      rendered && rowData == RowMap(rows) && buttons == ButtonMap(rows))
                && (!(old(showExcluded) && old(loaded) && old(notes).Some?) ==>
                      && rendered == old(rendered) && rowData == marked
                      && buttons == Unbutton(old(buttons), MatchingRows(old(rowData), contact, userRef)))
    {
      if rowId !in buttons {
        return None;
      }
      var row := rowData[rowId];
      var v := !buttons[rowId];
      if v && row.note.Some? && row.note.value.id != "" {
        return None;
      }
      var sent := ApplyExclusion(rowId, v);
      request := Some(sent);
      if showExcluded && loaded && notes.Some? {
        GenerateReport(notes.value, today);
      }
    }

    /** The part of an exclude click that follows the guard: the owner's rows
        get the new flag and lose their buttons, the envelope's sales are
        updated alike, and the clicked sale's id is tracked. Gives what is sent
        to the host. */
    method ApplyExclusion(rowId: nat, v: bool) returns (request: ExcludeRequest)
      requires Valid() && rowId in rowData
      modifies this
      ensures Valid()
      ensures var row := old(rowData)[rowId];
        var contact, userRef := row.sale.contact, row.sale.userRef;
        && rowData == MarkRows(old(rowData), contact, userRef, v)
        && request == ExcludeRequest(rowData[rowId], v)
        && buttons == Unbutton(old(buttons), MatchingRows(old(rowData), contact, userRef))
        && sales == (if old(enveloped) then MarkSales(old(sales), contact, userRef, v) else old(sales))
        && excludedIds == Track(old(excludedIds), row.sale.id, v)
      ensures loaded == old(loaded) && enveloped == old(enveloped) && notes == old(notes)
      ensures rendered == old(rendered) && showExcluded == old(showExcluded)
      ensures collecting == old(collecting) && collector == old(collector)
      ensures userOptions == old(userOptions)
    {
      var row := rowData[rowId];
      MarkOwnerRows(row.sale.contact, row.sale.userRef, v);
      MarkOwnerSales(row.sale.contact, row.sale.userRef, v, row.sale.id);
      request := ExcludeRequest(rowData[rowId], v);
    }

    /** The stored rows of the owner get the new flag and lose their buttons. */
    method MarkOwnerRows(contact: string, userRef: string, v: bool)
      requires Valid()
      modifies this
      ensures Valid()
      ensures rowData == MarkRows(old(rowData), contact, userRef, v)
      ensures buttons == Unbutton(old(buttons), MatchingRows(old(rowData), contact, userRef))
      ensures sales == old(sales) && excludedIds == old(excludedIds)
      ensures loaded == old(loaded) && enveloped == old(enveloped) && notes == old(notes)
      ensures rendered == old(rendered) && showExcluded == old(showExcluded)
      ensures collecting == old(collecting) && collector == old(collector)
      ensures userOptions == old(userOptions)
    {
      var matching := FindMatchingRows(rowData, contact, userRef);
      MarkKeepsButtons(rowData, buttons, contact, userRef, v);
      rowData, buttons := MarkRows(rowData, contact, userRef, v), Unbutton(buttons, matching);
    }

    /** The envelope's sales of the owner get the new flag, and the clicked
        sale's id is tracked (`handleExcludeClick`). */
    method MarkOwnerSales(contact: string, userRef: string, v: bool, saleId: string)
      requires Valid()
      modifies this
      ensures Valid()
      ensures sales == (if old(enveloped) then MarkSales(old(sales), contact, userRef, v) else old(sales))
      ensures excludedIds == Track(old(excludedIds), saleId, v)
      ensures rowData == old(rowData) && buttons == old(buttons)
      ensures loaded == old(loaded) && enveloped == old(enveloped) && notes == old(notes)
      ensures rendered == old(rendered) && showExcluded == old(showExcluded)
      ensures collecting == old(collecting) && collector == old(collector)
      ensures userOptions == old(userOptions)
    {
      if enveloped {
        sales := MarkMatchingSales(sales, contact, userRef, v);
      }
      excludedIds := Track(excludedIds, saleId, v);
    }

    /** `removeReportRow`, called by the host: when the table shows rows of
        that sale, they go, with their stored data and buttons, and the id
        leaves the excluded list; otherwise nothing changes. */
    method RemoveReportRow(saleId: string)
      requires Valid()
      modifies this
      ensures Valid()
      ensures sales == old(sales) && enveloped == old(enveloped) && loaded == old(loaded)
      ensures notes == old(notes) && rendered == old(rendered) && showExcluded == old(showExcluded)
      ensures collecting == old(collecting) && collector == old(collector)
      ensures userOptions == old(userOptions)
      ensures old(rendered) && (exists i :: i in old(rowData) && old(rowData)[i].sale.id == saleId) ==>
                && rowData == PurgeRows(old(rowData), saleId)
                && buttons == map i | i in old(buttons) && i in rowData :: old(buttons)[i]
                && excludedIds == Without(old(excludedIds), saleId)
                && forall i :: i in rowData ==> rowData[i].sale.id != saleId
      ensures !(old(rendered) && (exists i :: i in old(rowData) && old(rowData)[i].sale.id == saleId)) ==>
                rowData == old(rowData) && buttons == old(buttons) && excludedIds == old(excludedIds)
    {
      if rendered && exists i :: i in rowData && rowData[i].sale.id == saleId {
        DropSale(saleId);
      }
    }

    /** The rows of the sale leave the stored rows, with their buttons, and
        its id leaves the excluded ids. */
    method DropSale(saleId: string)
      requires Valid()
      modifies this
      ensures Valid()
      ensures sales == old(sales) && enveloped == old(enveloped) && loaded == old(loaded)
      ensures notes == old(notes) && rendered == old(rendered) && showExcluded == old(showExcluded)
      ensures collecting == old(collecting) && collector == old(collector)
      ensures userOptions == old(userOptions)
      ensures rowData == PurgeRows(old(rowData), saleId)
      ensures buttons == map i | i in old(buttons) && i in rowData :: old(buttons)[i]
      ensures excludedIds == Without(old(excludedIds), saleId)
    {
      var kept := PurgeRows(rowData, saleId);
      rowData, buttons, excludedIds := kept, map i | i in buttons && i in kept :: buttons[i], Without(excludedIds, saleId);
    }
  }
}
