# CMHEC AN Report: the reconciliation core in Dafny

The AN Report is a page that runs inside a FileMaker WebViewer. The host calls
it with a list of sales. The page works out the unique contacts and asks the
host for each contact's open action notes, one OData URL per contact. The host
answers in batches. The page merges the answers and builds a report table with
one row per (contact, account). Each row pairs the latest sale with the action
note chosen for its contact and user. From the table the user can exclude or
re-include a contact's sales, and the host can remove rows.

This project models that data logic in `src/index.js` and proves properties
of it. Dates are day numbers counted from 1970-01-01: `Option<int>`. A sale
`Date` that is absent or does not parse is `None`; a sale `Date` that is JSON
`null` is `Some(0)`, because `new Date(null)` is 1970-01-01. A note `DueDate`
that is `null` is falsy and is `None`. A string field missing from the host's
JSON is `""`.

- `wrappers.dfy`: `Option`.
- `text.dfy`: `trim`, ASCII case folding, and the string order used for
  sorting (code-point order, which is JavaScript's UTF-16 code-unit order for
  characters below U+10000), with the proof that it is a total order.
- `records.dfy`: the sale and action-note records, the sales payload, and the
  note key `lower(Contact) + "-" + lower(UserRef)`.
- `validation.dfy`: the date form's checks.
- `users.dfy`: the user drop-down of `populateUserFilter`.
- `dedup.dfy`: the "latest sale per key" `Map` fold. It is used by
  `extractUniqueContacts` (keyed by trimmed contact) and by the report (keyed
  by trimmed contact and account). A JavaScript `Map` is an association list
  here.
- `odata.dfy`: the action-note URLs. A parser for the OData string literal
  (section 5.1.1.6.1 of OData Version 4.01 Part 2: URL Conventions) shows
  that each URL names exactly its contact and user.
- `selector.dfy`: the pass that picks one action note per contact and user.
- `sorting.dfy`: the report's sort, as a stable insertion sort.
- `batches.dfy`: the batch accumulator of `addActionNoteBatch`.
- `report.dfy`: the report rows: filter, dedup, sort, note lookup.
- `exclusion.dfy`: the data side of the Exclude button and of `removeReportRow`.
- `session.dfy`: the page's global state as a class. Each entry point (form
  submit, checkbox, host callbacks, button click) is a method on it.

Three behaviours of the code as written are modelled:

- When an Exclude button is clicked, the source looks up each matching row's
  "button" with `document.querySelector('[data-row-id=…]')`. That lookup finds
  the `<tr>` first, so setting its `textContent` wipes the row's cells and its
  button. In the model, the matching rows lose their buttons.
- The batch counter counts calls, not indices. An answer delivered twice
  therefore completes the merge early (`Batches.RedeliveryCompletesEarly`).
- The note key joins two names with `-`, so different (contact, user) pairs
  can share a key (`Records.OwnerKeyCollides`).

The action-note selector's branches ("past first, then nearest to today")
come down to "the earliest due date wins". `today` plays no part
(`Selector.ShouldReplace`). On equal due dates the note seen first stays, so
the note kept depends on the order of arrival; only its due date does not
(`Selector.SelectedDueOrderFree`, `Selector.TieKeepsFirstSeen`).

## Model

| member | source | states |
|---|---|---|
| Text.Trim | src/index.js:315-316 | The trimmed string is empty exactly when the input is all white space (the falsy test on `x.trim()`). |
| Text.TrimStart | src/index.js:315-316 | `trim` removes only white space, and only at the two ends: the input is blank + result + blank. |
| Text.TrimEnds | src/index.js:315-316 | A non-empty trimmed string starts and ends with a non-space character. |
| Text.BelowReflexive | src/index.js:321 | Every string is in order with itself under the sort order. |
| Text.BelowTotal | src/index.js:321 | Any two strings are ordered one way or the other. |
| Text.BelowTransitive | src/index.js:321 | The sort order is transitive. |
| Text.BelowAntisymmetric | src/index.js:321 | Strings in order both ways are equal. |
| Records.OwnerKeyCollides | src/index.js:681 | The pairs ("a-b", "c") and ("a", "b-c") differ but get the same note key "a-b-c". |
| Records.OwnerKeyIgnoresCase | src/index.js:681 | Folding the names to lower case first does not change the key. |
| Validation.ValidateForm | src/index.js:19-35 | The form is refused for missing dates, then a missing user, then a start after the end, each exactly when the earlier checks pass; it passes exactly when none applies. |
| Validation.UnparsedDatePasses | src/index.js:32 | A date that does not parse never counts as later, so the order check lets it through. |
| Users.UniqueUsers | src/index.js:313-321 | The options are exactly the trimmed non-blank `UserRef`s of the sales, each once, in ascending order. |
| Dedup.FoldCharacterized | src/index.js:455-477 | The fold keeps one entry per key that some eligible sale carries, in order of first appearance. Each entry holds the sale with no strictly later date under its key, and on equal dates the first seen. |
| Dedup.EntryOwnsSale | src/index.js:767-786 | Every map entry holds an eligible sale of the input, filed under that sale's own key, and it is the sale the fold keeps for that key. |
| Dedup.UniqueContactsListed | src/index.js:437-481 | Each unique contact has a non-blank name, in order of first appearance. Every eligible sale's trimmed contact is listed. Each record is built from the latest sale for its name (the first of equal dates). |
| Dedup.KeepLatest | src/index.js:766-786 | The `forEach` over the sales building the map gives exactly the fold `Latest`. |
| Dedup.ExtractUniqueContacts | src/index.js:437-481 | The contact records the source builds are exactly `UniqueContacts`. |
| OData.Escape | src/index.js:504 | Escaping never shortens a string and leaves a string without quotes as it is. |
| OData.ReadEscaped | src/index.js:504-508 | An escaped value followed by its closing quote reads back as the value, with the rest of the text untouched. |
| OData.FilterRoundTrip | src/index.js:503-512 | A filter names exactly its contact and the trimmed user. |
| OData.UrlRoundTrip | src/index.js:515 | A URL names exactly its contact and the trimmed user. |
| OData.UrlsDistinguishContacts | src/index.js:503-516 | Two different contact names never give the same URL, quotes in names included. |
| OData.EffectiveUser | src/index.js:492-495 | A non-blank user filter is used as given; a blank one is replaced by the first contact's user, or "" without contacts. |
| OData.RequestUrlsNameContacts | src/index.js:484-521 | There is one URL per contact, in contact order, and URL `j` names contact `j` and the trimmed effective user. |
| OData.BuildUrl | src/index.js:503-516 | The filter built piece by piece is the URL `ActionNoteUrl` gives for the contact and user. |
| OData.ActionNoteUrls | src/index.js:484-521 | The batched loops give exactly `RequestUrls`: batching changes neither the number nor the order of the URLs. |
| Selector.ShouldReplace | src/index.js:710-744 | The branches come down to one rule: the current note goes in when there is none yet, or when it is dated and the stored one is undated or due later. |
| Selector.IsSelectedUnique | src/index.js:679-751 | At most one note fits the description of the note kept under a key. |
| Selector.SelectedAt | src/index.js:679-751 | A key is in the notes object exactly when some note with a `Contact` and a `UserRef` files under it. The note kept has the earliest due date of that key's dated notes (if any are dated), and every note before it is undated or due strictly later. |
| Selector.SelectedKeyMatches | src/index.js:681 | Every kept note is filed under its own key. |
| Selector.SelectedDueOrderFree | src/index.js:679-751 | Any two orders of the same notes, with any `today`, keep a note under the same keys with the same due date. |
| Selector.TieKeepsFirstSeen | src/index.js:729-734 | With two notes due the same day, the first one seen is kept, so swapping them changes the note kept. |
| Selector.SelectActionNotes | src/index.js:679-751 | The `forEach` over the notes gives exactly the notes object `Select`. |
| Sorting.SortBySorted | src/index.js:792-796 | The sorted copy is in ascending order of its key. |
| Sorting.SortByPermutes | src/index.js:792-796 | The sorted copy holds the same elements, as often. |
| Sorting.SortByStable | src/index.js:792-796 | Elements with the same key come out in the order they went in. |
| Batches.Store | src/index.js:534 | Writing at a negative index changes nothing. Otherwise the array grows to hold the index, with holes in between, and that slot alone gets the answer. |
| Batches.StoreCommutes | src/index.js:534 | Answers for different indices can be stored in either order. |
| Batches.CombineHolds | src/index.js:553-561 | A note is in the merge exactly when some usable slot holds it. |
| Batches.CombineBatches | src/index.js:557-561 | The `forEach` pushing each usable slot's notes gives exactly `Combine`, the notes in index order. |
| Batches.StoreAllLength | src/index.js:534 | After a run of answers the array reaches exactly the furthest index named. |
| Batches.StoreAllAt | src/index.js:534 | With distinct indices, each named index holds its answer and every other slot is as before or a hole. |
| Batches.StoreAllOrderFree | src/index.js:534 | Answers for distinct indices fill the same array in any arrival order. |
| Batches.Deliver | src/index.js:534-551 | A call completes the merge exactly when the count plus one reaches the number expected; otherwise the count goes up by exactly one. |
| Batches.DeliverAllWaits | src/index.js:534-551 | Fewer calls than outstanding answers leave the merge pending, with every answer stored and counted. |
| Batches.DeliverAllCompletes | src/index.js:534-561 | The call that brings the count to the number expected merges what is stored, whichever indices the calls named. |
| Batches.DeliverAllOrderFree | src/index.js:534-561 | Answers for distinct indices merge to the same notes in any arrival order. |
| Batches.RedeliveryCompletesEarly | src/index.js:535 | With two answers expected, batch 0 delivered twice completes the merge with batch 0 alone. |
| Report.Visible | src/index.js:757-763 | A sale is kept exactly when it is in the input and excluded ones are shown or it is not excluded. |
| Report.VisibleAppend | src/index.js:762 | The filter works part by part, so it keeps the input order. |
| Report.Rows | src/index.js:821-827 | There is one row per listed sale, in display order (row `i` is `row-i`). |
| Report.BuildRows | src/index.js:679-796 | The selector pass, the filter, the dedup pass, the sort and the row-building `forEach` give exactly `Rows`. |
| Report.RowsSorted | src/index.js:792-796 | Rows are in ascending order of upper-cased account nickname, and rows with equal keys keep the map's order. |
| Report.RowsAreLatest | src/index.js:757-786 | Every row's sale is an input sale, not excluded unless excluded ones are shown, and it is the sale the dedup keeps for its key. |
| Report.RowsOnePerKey | src/index.js:766-786 | No two rows share a trimmed (contact, account) key. |
| Report.RowsCoverKeys | src/index.js:766-786 | Every shown sale with a contact and an account has its key on some row. |
| Report.RowNotes | src/index.js:823-824 | A row has no note exactly when no note is filed under its sale's key; otherwise it carries the note the selector describes. |
| Exclusion.MarkSales | src/index.js:1006-1014 | The owner's sales get the new flag; every other sale, and every other field, stays as it was. |
| Exclusion.MarkMatchingSales | src/index.js:1007-1013 | The `forEach` over the sales gives exactly `MarkSales`. |
| Exclusion.MarkSalesLastWins | src/index.js:1006-1014 | Setting the flag twice leaves only the second setting. |
| Exclusion.ExcludeThenInclude | src/index.js:1006-1014 | Excluding an owner whose sales were all included, then including it, gives back the sales. |
| Exclusion.ExcludedOwnerHidden | src/index.js:757-763 | After an owner is excluded, a report that hides excluded sales has no row of that owner. |
| Exclusion.IncludedOwnerShown | src/index.js:757-786 | After an owner is included again, each of its sales with a contact and an account has its key on some row. |
| Exclusion.FindMatchingRows | src/index.js:945-954 | The loop over the stored rows collects exactly the rows whose contact and user are present and equal to the clicked row's, ignoring case. |
| Exclusion.MarkRows | src/index.js:984-987 | The owner's stored rows get the new flag. Every other row, every other field, every note and the set of rows stay as they were. |
| Exclusion.Without | src/index.js:158 | The filtered list holds every id but the one removed. It keeps a list without repeats free of repeats, and a list without that id stays as it is. |
| Exclusion.Track | src/index.js:148-160 | A sale without an id changes nothing. Otherwise the id is in the list afterwards exactly when excluding; other ids are untouched and no id repeats. |
| Exclusion.TrackRoundTrip | src/index.js:150-159 | Excluding a sale and including it again leaves the list as it was. |
| Exclusion.PurgeRows | src/index.js:634-640 | Exactly the stored rows of other sales remain, each unchanged. |
| Session.RowMap | src/index.js:869-903 | `reportRowData` has the keys `row-0` … `row-(n-1)`, row `i` holding the `i`-th row. |
| Session.ButtonMap | src/index.js:836 | There is one button per row, flagged with the row's `ANExclude`. |
| Session.StoreRows | src/index.js:869-903 | The loop gives exactly `RowMap` and `ButtonMap` of the rows. |
| Session.ContactQueryUrls | src/index.js:373-376 | The URLs sent are those of `RequestUrls` for `UniqueContacts` of the sales. |
| Session.MarkKeepsButtons | src/index.js:957-987 | After the owner's rows are marked and their buttons destroyed, every remaining button still shows its row's flag. |
| Session.Session.constructor | src/index.js:301 | The page starts with nothing loaded or shown, no excluded ids and no batches pending. |
| Session.Session.SubmitForm | src/index.js:12-50 | The result is `ValidateForm`. A valid form replaces the table with the loading state; a refused one changes nothing. |
| Session.Session.PopulateUserFilter | src/index.js:304-338 | Unusable data leaves the options as they were. Otherwise the options are exactly the trimmed non-blank users, sorted and distinct, and nothing else changes. |
| Session.Session.ProcessSalesData | src/index.js:341-434 | Malformed or empty sales show an error and change nothing else. Otherwise the excluded ids are reset and the sales stored. The URLs of the unique contacts are sent and collection starts for that many answers. Earlier notes are kept. |
| Session.Session.LoadSales | src/index.js:361-386 | The state after the emptiness check: sales stored, ids reset, URLs computed, collection started. |
| Session.Session.StartCollecting | src/index.js:383-386 | The sales are in, the batch array is empty and the count is zero out of the number of URLs. |
| Session.Session.GenerateReport | src/index.js:651-903 | The notes are recorded. Without sales the page shows an error. Otherwise the stored rows and buttons are those of `Rows` over the current sales, notes and checkbox. |
| Session.Session.ShowRows | src/index.js:863-903 | The table shows the rows: the stored row data and one button per row with its flag. |
| Session.Session.ProcessActionNoteData | src/index.js:587-609 | Same as `GenerateReport` with the notes given. |
| Session.Session.AddActionNoteBatch | src/index.js:524-584 | Outside a collection: the error state and nothing else. Otherwise the state follows `Deliver`: waiting keeps counting; completion drops the tracking and shows `Rows` over the merged notes. |
| Session.Session.ToggleShowExcluded | src/index.js:53-58 | The checkbox is set. With sales and notes at hand the table shows `Rows` under the new setting; otherwise nothing else changes. |
| Session.Session.ExcludeClick | src/index.js:922-1036 | Only a live button can be clicked. Excluding a row with an action-note id is refused with no change. Otherwise the owner's rows are marked and lose their buttons. An envelope's sales are marked alike and the id is tracked. The clicked row and the new value go to the host. With "Show Excluded" ticked the table is rebuilt. |
| Session.Session.ApplyExclusion | src/index.js:940-1026 | The owner's rows get the flag and lose their buttons. Envelope sales are marked, the id is tracked, and the marked clicked row goes to the host. |
| Session.Session.MarkOwnerRows | src/index.js:945-987 | The stored rows become `MarkRows`; the matching rows' buttons are gone. |
| Session.Session.MarkOwnerSales | src/index.js:1006-1014 | An envelope's sales become `MarkSales` (a bare array is left alone), and the excluded ids become `Track`. |
| Session.Session.RemoveReportRow | src/index.js:615-648 | If the table shows rows of the sale, they go with their data and buttons and the id leaves the excluded list; no stored row keeps that id. Otherwise nothing changes. |
| Session.Session.DropSale | src/index.js:622-640 | The stored rows become `PurgeRows`, only the buttons of remaining rows stay, and the excluded ids become `Without` that id. |

## Left out

- DOM rendering: the HTML templates, row styling, hiding and showing rows by sale id, the progress bar and `updateContactsCount`. The model records only whether the table is shown, the stored row data and the live Exclude buttons with their flags.
- `handleRowClick` and the row click listener, which only pass the row's data to the host.
- `formatDate`, and the fields shown but never compared (totals, document numbers and types).
- `JSON.parse`: the callbacks take parsed values. `SalesData` tells an OData envelope from a bare array and from anything else. An exception raised by malformed JSON is not modelled.
- Calls to FileMaker (`callFileMakerScript`) are outputs of the methods: the URLs and the exclude request. The development-mode simulation, `fetch` of sample data, `alert` and the Generate button's label are not modelled.
- Timers: the 100 ms delayed regeneration after an exclude click is modelled as immediate. The clock (`today`) is a parameter.
- Dates are normalised day numbers. `new Date` parsing, time zones and `setHours` are not modelled. `None` stands for a date that is absent or does not parse; a `null` sale `Date` is day 0 (1970-01-01, UTC), and a `null` `DueDate` is `None`.
- `localeCompare` and the default `sort` are modelled as code-point order (`Text.Below`); locale collation is not modelled, and neither is the default `sort`'s UTF-16 order for characters at or above U+10000, which differs from code-point order.
- `toLowerCase` and `toUpperCase` fold ASCII letters only.
- A missing string field is `""`. The source throws when a shown sale has no `UserRef` (`sale.UserRef.toLowerCase()`); the model does not.
- A sale without `_ID` is rendered with `data-sale-id="undefined"`, and the model does not capture this.
- Non-integer and string batch indices are not modelled.
- Batches.Deliver: an answer that arrives after the merge is not part of the accumulator. `Session.Session.AddActionNoteBatch` models it: the batch array has been deleted, the write throws, and the page shows the error state.
- Batches.Store: an index of 2^32 − 1 or more is no array index in JavaScript and names a plain property, as a negative index does; `Store` grows the slots for it instead.
- The selected user of the drop-down is a parameter of `ProcessSalesData`.
- Selector.SelectedDueOrderFree: only the kept due date and the set of keys are order independent. On equal due dates the note seen first stays (`Selector.TieKeepsFirstSeen`).
- Session.Session.ExcludeClick: with a bare sales array the click does not update the stored sales, so a rebuilt table shows the old flags. This is the source's behaviour.
